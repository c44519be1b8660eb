/**
 * The x86 and x86-64 patterns: the register tables, the recognisers of the
 * call, function-pointer, dynamic-stack, push, sub and potential-stack
 * grammars (for the package and for the older script), and the decoders of
 * call targets, push sizes and sub immediates.
 *
 * A recogniser holds exactly when `re.match` of its grammar finds a match
 * on a line. Lines never hold a line break (they are the pieces of the
 * listing between line breaks), so `.` is any character and `$` is the end
 * of the line.
 */
module X86Patterns {
  import opened Wrappers
  import opened Text
  import opened Numbers
  import opened Architecture
  import Patterns

  // ---------------------------------------------------------------------
  // Register tables

  const REG8: seq<string> := [
    "rax", "rbx", "rcx", "rdx", "rbp", "rsi", "rdi", "rsp",
    "r8", "r9", "r10", "r11", "r12", "r13", "r14", "r15"
  ]

  const REG4: seq<string> := [
    "eax", "ebx", "ecx", "edx", "ebp", "esi", "edi", "esp",
    "r8d", "r9d", "r10d", "r11d", "r12d", "r13d", "r14d", "r15d"
  ]

  const REG2: seq<string> := [
    "ax", "bx", "cx", "dx", "bp", "si", "di", "sp",
    "r8w", "r9w", "r10w", "r11w", "r12w", "r13w", "r14w", "r15w"
  ]

  const REG1: seq<string> := [
    "ah", "al", "bh", "bl", "ch", "cl", "dh", "dl", "bpl", "sil", "dil", "spl",
    "r8b", "r9b", "r10b", "r11b", "r12b", "r13b", "r14b", "r15b"
  ]

  /** `.*( |\t)+%r$`: the line ends in a blank, `%` and the register `r`. */
  predicate EndsInRegister(line: string, r: string) {
    |line| >= |r| + 2 && line[|line| - |r| - 1..] == "%" + r && IsBlank(line[|line| - |r| - 2])
  }

  predicate EndsInAny(line: string, table: seq<string>) {
    exists i | 0 <= i < |table| :: EndsInRegister(line, table[i])
  }

  /** `_get_stack_push_size`: the width of the register the line ends in, wider tables first; 0 for anything else. */
  function RegisterWidth(line: string): (w: nat)
    ensures w in {0, 1, 2, 4, 8}
  {
    if EndsInAny(line, REG8) then 8
    else if EndsInAny(line, REG4) then 4
    else if EndsInAny(line, REG2) then 2
    else if EndsInAny(line, REG1) then 1
    else 0
  }

  /** The width a table gives its registers. */
  function TableOf(w: nat): seq<string> {
    if w == 8 then REG8 else if w == 4 then REG4 else if w == 2 then REG2 else REG1
  }

  predicate NoPercent(r: string) {
    forall i :: 0 <= i < |r| ==> r[i] != '%'
  }

  lemma TablesHaveNoPercent(w: nat, i: nat)
    requires w in {1, 2, 4, 8} && i < |TableOf(w)|
    ensures NoPercent(TableOf(w)[i]) && |TableOf(w)[i]| > 0
  {
  }

  /** Where a shorter register ends the line after a `%`, a longer one would hold that `%`. */
  lemma SuffixInside(line: string, r: string, q: string)
    requires EndsInRegister(line, r) && EndsInRegister(line, q) && |r| < |q|
    ensures q[|q| - |r| - 1] == '%'
  {
    var n := |line|;
    assert line[n - |r| - 1] == '%';
    assert line[n - |q| - 1..][|q| - |r|] == line[n - |r| - 1];
  }

  /** Two registers that both end the line after a `%` are the same register. */
  lemma SuffixUnique(line: string, r: string, q: string)
    requires NoPercent(r) && NoPercent(q)
    requires EndsInRegister(line, r) && EndsInRegister(line, q)
    ensures r == q
  {
    if |r| < |q| {
      SuffixInside(line, r, q);
      assert false;
    } else if |q| < |r| {
      SuffixInside(line, q, r);
      assert false;
    } else {
      assert ("%" + r)[1..] == r && ("%" + q)[1..] == q;
    }
  }

  /** The width a register's spelling gives it. */
  function Kind(r: string): nat
    requires |r| > 0
  {
    var c := r[|r| - 1];
    if c == 'd' then 4
    else if c == 'w' then 2
    else if c == 'b' || c == 'h' || c == 'l' then 1
    else if r[0] == 'e' then 4
    else if |r| == 2 && r[0] != 'r' then 2
    else 8
  }

  lemma KindOfTable(w: nat, i: nat)
    requires w in {1, 2, 4, 8} && i < |TableOf(w)|
    ensures |TableOf(w)[i]| > 0 && Kind(TableOf(w)[i]) == w
  {
  }

  /** No register is in two tables. */
  lemma TablesDisjoint(v: nat, w: nat, i: nat, j: nat)
    requires v in {1, 2, 4, 8} && w in {1, 2, 4, 8} && v != w
    requires i < |TableOf(v)| && j < |TableOf(w)|
    ensures TableOf(v)[i] != TableOf(w)[j]
  {
    KindOfTable(v, i);
    KindOfTable(w, j);
  }

  /** A line ending in a blank, `%` and a register of width `w` has push width `w`. */
  lemma RegisterWidthOf(prefix: string, w: nat, i: nat)
    requires |prefix| > 0 && IsBlank(prefix[|prefix| - 1])
    requires w in {1, 2, 4, 8} && i < |TableOf(w)|
    ensures RegisterWidth(prefix + "%" + TableOf(w)[i]) == w
  {
    var r := TableOf(w)[i];
    var line := prefix + "%" + r;
    TablesHaveNoPercent(w, i);
    assert line[|line| - |r| - 1..] == "%" + r;
    assert line[|line| - |r| - 2] == prefix[|prefix| - 1];
    assert EndsInRegister(line, r);
    forall v: nat, j: nat | v in {1, 2, 4, 8} && v != w && j < |TableOf(v)|
      ensures !EndsInRegister(line, TableOf(v)[j])
    {
      TablesHaveNoPercent(v, j);
      TablesDisjoint(v, w, j, i);
      if EndsInRegister(line, TableOf(v)[j]) {
        SuffixUnique(line, TableOf(v)[j], r);
      }
    }
    assert EndsInAny(line, TableOf(w));
    if w != 8 {
      assert !EndsInAny(line, TableOf(8));
    }
    if w != 4 {
      assert !EndsInAny(line, TableOf(4));
    }
    if w != 2 {
      assert !EndsInAny(line, TableOf(2));
    }
  }

  /** A line without `%` pushes a constant. */
  lemma RegisterWidthConstant(line: string)
    requires '%' !in line
    ensures RegisterWidth(line) == 0
  {
    forall r: string ensures !EndsInRegister(line, r) {
      if |line| >= |r| + 2 {
        assert line[|line| - |r| - 1..][0] == line[|line| - |r| - 1];
      }
    }
  }

  /** `get_stack_push_size` of the package: the register width, or the width of a pushed constant (4 for x86, 8 for x86-64). */
  function PushSize(a: Arch, line: string): (n: nat)
    ensures n in {1, 2, 4, 8}
  {
    var w := RegisterWidth(line);
    if w != 0 then w else if a == X86_64 then 8 else 4
  }

  /** The older script pushes 4 bytes on x86 and 8 on x86-64, whatever the operand. */
  function LegacyPushSize(a: Arch): nat {
    if a == X86_64 then 8 else 4
  }

  /** A register push has its register's width on both architectures, and a constant push the architecture's word. */
  lemma PushSizeOf(a: Arch, prefix: string, w: nat, i: nat)
    requires |prefix| > 0 && IsBlank(prefix[|prefix| - 1])
    requires w in {1, 2, 4, 8} && i < |TableOf(w)|
    ensures PushSize(a, prefix + "%" + TableOf(w)[i]) == w
  {
    RegisterWidthOf(prefix, w, i);
  }

  lemma PushSizeConstant(a: Arch, line: string)
    requires '%' !in line
    ensures PushSize(a, line) == if a == X86_64 then 8 else 4
  {
    RegisterWidthConstant(line);
  }

  /** For a pushed constant the older script and the package agree. */
  lemma LegacyPushSizeConstant(a: Arch, line: string)
    requires '%' !in line
    ensures LegacyPushSize(a) == PushSize(a, line)
  {
    PushSizeConstant(a, line);
  }

  /**
   * For a pushed register the older script and the package agree exactly
   * when the register is as wide as the architecture's word.
   */
  lemma LegacyPushSizeRegister(a: Arch, prefix: string, w: nat, i: nat)
    requires |prefix| > 0 && IsBlank(prefix[|prefix| - 1])
    requires w in {1, 2, 4, 8} && i < |TableOf(w)|
    ensures LegacyPushSize(a) == PushSize(a, prefix + "%" + TableOf(w)[i]) <==> w == LegacyPushSize(a)
  {
    PushSizeOf(a, prefix, w, i);
  }

  // ---------------------------------------------------------------------
  // `get_function_call`

  /** Tabs become blanks, pairs of blanks become one blank, then the last two blank-separated words: hex address and `<name>`. */
  function GetFunctionCall(line: string): (r: Result<(int, string)>)
    ensures r.Err? ==> r.error in {IndexError, ValueError}
  {
    var words := Words(line);
    if |words| < 2 then Err(IndexError)
    else
      match ParseInt(words[|words| - 2], Hexadecimal)
      case Err(e) => Err(e)
      case Ok(address) => Ok((address, Slice(words[|words| - 1], 1, 1)))
  }

  /** The call target: the blank-ended text, a hexadecimal address, ` <`, the name and `>`. */
  function CallTail(hex: string, name: string): string {
    hex + " <" + name + ">"
  }

  predicate Word(s: string) {
    ' ' !in s && '\t' !in s
  }

  /** The call target is already normal and has two words. */
  lemma CallTailIdle(hex: string, name: string)
    requires |hex| > 0 && AllIn(hex, HexDigit) && Word(name)
    ensures '\t' !in CallTail(hex, name) && NoDoubleSpace(CallTail(hex, name))
    ensures Split(CallTail(hex, name), ' ') == [hex, "<" + name + ">"]
  {
    var t := CallTail(hex, name);
    var q := "<" + name + ">";
    assert t == hex + [' '] + q;
    assert forall i :: 0 <= i < |hex| ==> hex[i] != ' ' && hex[i] != '\t' by {
      forall i | 0 <= i < |hex| ensures hex[i] != ' ' && hex[i] != '\t' {
        assert In(hex[i], HexDigit);
      }
    }
    assert forall i :: 0 <= i < |q| ==> q[i] != ' ' && q[i] != '\t' by {
      forall i | 0 <= i < |q| ensures q[i] != ' ' && q[i] != '\t' {
        if 0 < i < |q| - 1 {
          assert q[i] == name[i - 1];
        }
      }
    }
    assert '\t' !in t by {
      forall i | 0 <= i < |t| ensures t[i] != '\t' {
        if i < |hex| {
          assert t[i] == hex[i];
        } else if i > |hex| {
          assert t[i] == q[i - |hex| - 1];
        }
      }
    }
    assert NoDoubleSpace(t) by {
      forall i | 0 <= i < |t| - 1 ensures !(t[i] == ' ' && t[i + 1] == ' ') {
        if i < |hex| {
          assert t[i] == hex[i];
        } else if i == |hex| {
          assert t[i + 1] == q[0];
        } else {
          assert t[i] == q[i - |hex| - 1];
        }
      }
    }
    SplitConcat(hex, ' ', q);
    SplitFree(hex, ' ');
    SplitFree(q, ' ');
  }

  /**
   * A call line: anything that ends in a blank, then the target address in
   * hexadecimal and `<name>`, decodes to that address and name.
   */
  lemma GetFunctionCallOf(pre: string, hex: string, name: string)
    requires |pre| > 0 && IsBlank(pre[|pre| - 1])
    requires |hex| > 0 && AllIn(hex, HexDigit) && Word(name)
    ensures GetFunctionCall(pre + CallTail(hex, name)) == Ok((HexValue(hex), name))
  {
    var t := CallTail(hex, name);
    CallTailIdle(hex, name);
    assert t[0] == hex[0] && In(hex[0], HexDigit);
    WordsAfterBlank(pre, t);
    var words := Words(pre + t);
    assert words[|words| - 2..] == [hex, "<" + name + ">"];
    assert words[|words| - 2] == hex && words[|words| - 1] == "<" + name + ">";
    ParseHexDigits(hex);
    assert Slice("<" + name + ">", 1, 1) == name;
  }

  /** The call of the tests: `callq  4005e9 <function_e>` decodes to 0x4005e9 and `function_e`. */
  lemma GetFunctionCallExample(pre: string)
    requires pre == "400734:" + "       " + "e8 b0 fe ff ff" + "          " + "callq  "
    ensures GetFunctionCall(pre + CallTail("4005e9", "function_e")) == Ok((0x4005e9, "function_e"))
  {
    Patterns.HexDigitsValue6("4005e9", 0x4005e9);
    assert pre[|pre| - 1] == ' ';
    GetFunctionCallOf(pre, "4005e9", "function_e");
  }

  // ---------------------------------------------------------------------
  // `get_stack_sub_size`

  /** The last blank-separated word, up to its first comma, without its first character. */
  function GetStackSubSize(line: string): string {
    Slice(Split(Last(Split(line, ' ')), ',')[0], 1, 0)
  }

  /** `sub $imm,reg` as the last word of a line gives the immediate without its `$`. */
  lemma GetStackSubSizeOf(pre: string, imm: string, reg: string)
    requires ' ' !in imm && ',' !in imm && ' ' !in reg
    ensures GetStackSubSize(pre + " " + "$" + imm + "," + reg) == imm
  {
    var word := "$" + imm + "," + reg;
    assert pre + " " + "$" + imm + "," + reg == pre + [' '] + word;
    assert ' ' !in word by {
      forall i | 0 <= i < |word| ensures word[i] != ' ' {
        if 0 < i <= |imm| {
          assert word[i] == imm[i - 1];
        } else if i > |imm| + 1 {
          assert word[i] == reg[i - |imm| - 2];
        }
      }
    }
    SplitConcat(pre, ' ', word);
    SplitFree(word, ' ');
    assert word == ("$" + imm) + [','] + reg;
    SplitConcat("$" + imm, ',', reg);
    assert ',' !in "$" + imm by {
      forall i | 0 <= i < |imm| + 1 ensures ("$" + imm)[i] != ',' {
        if i > 0 {
          assert ("$" + imm)[i] == imm[i - 1];
        }
      }
    }
    SplitFree("$" + imm, ',');
    assert ("$" + imm)[1..] == imm;
  }

  /** The sub of the tests: `sub    $0x10,%rsp` gives `0x10`. */
  lemma GetStackSubSizeExample()
    ensures GetStackSubSize("4004aa:" + "   " + "48 83 ec 10" + "             " + "sub   " + " " + "$" + "0x10" + "," + "%rsp")
         == "0x10"
  {
    GetStackSubSizeOf("4004aa:" + "   " + "48 83 ec 10" + "             " + "sub   ", "0x10", "%rsp");
  }

  // ---------------------------------------------------------------------
  // Recognisers of the package's grammars, built by `_operation`:
  // `.*\s+` before the mnemonic, `\s+` after it, `,\s*` between operands.
  // Each part of a grammar is a predicate on the text from where that part
  // starts, so a line built from parts is recognised part by part.

  /** Some white space ends just before `p`, as `.*\s+` requires of where the mnemonic starts. */
  predicate SpaceBefore(line: string, p: nat) {
    0 < p <= |line| && IsSpace(line[p - 1])
  }

  /** The stack-pointer spellings `%(e|r|l|)sp`. */
  predicate StackPointer(reg: string) {
    reg in {"%sp", "%esp", "%rsp", "%lsp"}
  }

  /** `\s*%(e|r|l|)sp$`: white space, then the stack pointer ends the text. */
  predicate SpTail(t: string) {
    StackPointer(t[Skip(t, 0, Space)..])
  }

  /** `\s+` then `operands`: the text after a non-empty run of white space. */
  function AfterSpace(t: string): Option<string> {
    var a := Skip(t, 0, Space);
    if a == 0 then None else Some(t[a..])
  }

  /** `[0-9a-f]+ <.*>$` */
  predicate CallOperand(t: string) {
    var h := Skip(t, 0, HexDigit);
    h > 0 && h + 3 <= |t| && t[h] == ' ' && t[h + 1] == '<' && t[|t| - 1] == '>'
  }

  /** `%.*,\s*%(e|r|l|)sp$` */
  predicate DynamicOperands(t: string) {
    |t| > 0 && t[0] == '%' && exists c | 0 < c < |t| :: t[c] == ',' && SpTail(t[c + 1..])
  }

  /** `\$0x[0-9a-f]*,\s*%(e|r|l|)sp$` */
  predicate SubOperands(t: string) {
    && StartsAt(t, 0, "$0x")
    && var h := Skip(t, 3, HexDigit);
    && h < |t| && t[h] == ',' && SpTail(t[h + 1..])
  }

  /** `FunctionCall`: `callq`, white space and a call operand. */
  predicate CallAt(line: string, p: nat) {
    && StartsAt(line, p, "callq")
    && var o := AfterSpace(line[p + 5..]);
    && o.Some? && CallOperand(o.value)
  }

  predicate IsCall(line: string) {
    exists p | 0 <= p <= |line| :: SpaceBefore(line, p) && CallAt(line, p)
  }

  /** `FunctionPointer`: `callq`, white space, and a `%` somewhere after it. */
  predicate PointerAt(line: string, p: nat) {
    && StartsAt(line, p, "callq")
    && var o := AfterSpace(line[p + 5..]);
    && o.Some? && '%' in o.value
  }

  predicate IsPointer(line: string) {
    exists p | 0 <= p <= |line| :: SpaceBefore(line, p) && PointerAt(line, p)
  }

  /** `StackDynamicOp`: `sub`, white space and a register, a comma and the stack pointer. */
  predicate DynamicAt(line: string, p: nat) {
    && StartsAt(line, p, "sub")
    && var o := AfterSpace(line[p + 3..]);
    && o.Some? && DynamicOperands(o.value)
  }

  predicate IsDynamic(line: string) {
    exists p | 0 <= p <= |line| :: SpaceBefore(line, p) && DynamicAt(line, p)
  }

  /** `StackSubOp`: `sub`, white space and a hexadecimal immediate, a comma and the stack pointer. */
  predicate SubAt(line: string, p: nat) {
    && StartsAt(line, p, "sub")
    && var o := AfterSpace(line[p + 3..]);
    && o.Some? && SubOperands(o.value)
  }

  predicate IsSub(line: string) {
    exists p | 0 <= p <= |line| :: SpaceBefore(line, p) && SubAt(line, p)
  }

  /** `StackPushOp`: `push`, optionally the size letter (`l` on x86, `q` on x86-64), then a blank. */
  predicate PushAt(line: string, p: nat, suffix: char) {
    && StartsAt(line, p, "push")
    && ((p + 4 < |line| && IsBlank(line[p + 4]))
        || (p + 5 < |line| && line[p + 4] == suffix && IsBlank(line[p + 5])))
  }

  function SizeLetter(a: Arch): char {
    if a == X86_64 then 'q' else 'l'
  }

  predicate IsPush(a: Arch, line: string) {
    exists p | 0 <= p <= |line| :: SpaceBefore(line, p) && PushAt(line, p, SizeLetter(a))
  }

  /**
   * `PotentialStackOp`: `enter`, `fdecstp` or anything starting with `push`.
   * Its fourth alternative puts `^` after `.*\s+`, where no match can be
   * anchored, so a `pop` never matches it.
   */
  predicate PotentialAt(line: string, p: nat) {
    StartsAt(line, p, "enter") || StartsAt(line, p, "fdecstp") || StartsAt(line, p, "push")
  }

  predicate IsPotential(line: string) {
    exists p | 0 <= p <= |line| :: SpaceBefore(line, p) && PotentialAt(line, p)
  }

  // Lemmas about the recognisers.

  lemma HexNotSpace(h: string)
    requires AllIn(h, HexDigit)
    ensures forall i :: 0 <= i < |h| ==> !IsSpace(h[i])
  {
    forall i | 0 <= i < |h| ensures !IsSpace(h[i]) {
      assert In(h[i], HexDigit);
    }
  }

  /** White space followed by something else is skipped by `\s+`. */
  lemma AfterSpaceOf(ws: string, rest: string)
    requires |ws| > 0 && AllIn(ws, Space) && |rest| > 0 && !IsSpace(rest[0])
    ensures AfterSpace(ws + rest) == Some(rest)
  {
    SkipPrefix(ws, rest, Space);
    assert (ws + rest)[|ws|..] == rest;
  }

  /** The text after a mnemonic that starts a part. */
  lemma AfterMnemonic(pre: string, m: string, rest: string)
    ensures StartsAt(pre + (m + rest), |pre|, m)
    ensures (pre + (m + rest))[|pre| + |m|..] == rest
  {
    assert (pre + (m + rest))[|pre|..|pre| + |m|] == m;
  }

  /** The space before a mnemonic, at the end of the prefix. */
  lemma SpaceBeforeAfter(pre: string, rest: string)
    requires |pre| > 0 && IsSpace(pre[|pre| - 1])
    ensures SpaceBefore(pre + rest, |pre|)
  {
    assert (pre + rest)[|pre| - 1] == pre[|pre| - 1];
  }

  lemma SpTailOf(ws: string, sp: string)
    requires AllIn(ws, Space) && StackPointer(sp)
    ensures SpTail(ws + sp)
  {
    assert sp[0] == '%';
    SkipPrefix(ws, sp, Space);
    assert (ws + sp)[|ws|..] == sp;
  }

  lemma CallOperandOf(hex: string, name: string)
    requires |hex| > 0 && AllIn(hex, HexDigit)
    ensures CallOperand(hex + (" <" + name + ">"))
  {
    var t := hex + (" <" + name + ">");
    SkipPrefix(hex, " <" + name + ">", HexDigit);
    assert t[|hex|] == ' ' && t[|hex| + 1] == '<' && t[|t| - 1] == '>';
  }

  /** `callq`, white space, the target in hexadecimal, ` <` and a name in angle brackets is a call. */
  lemma IsCallOf(pre: string, ws: string, hex: string, name: string)
    requires |pre| > 0 && IsSpace(pre[|pre| - 1])
    requires |ws| > 0 && AllIn(ws, Space)
    requires |hex| > 0 && AllIn(hex, HexDigit)
    ensures IsCall(pre + ("callq" + (ws + (hex + (" <" + name + ">")))))
  {
    var operand := hex + (" <" + name + ">");
    var line := pre + ("callq" + (ws + operand));
    AfterMnemonic(pre, "callq", ws + operand);
    HexNotSpace(hex);
    AfterSpaceOf(ws, operand);
    CallOperandOf(hex, name);
    assert CallAt(line, |pre|);
    SpaceBeforeAfter(pre, "callq" + (ws + operand));
  }

  /** `callq`, white space and an operand holding `%` is a call through a pointer. */
  lemma IsPointerOf(pre: string, ws: string, operand: string)
    requires |pre| > 0 && IsSpace(pre[|pre| - 1])
    requires |ws| > 0 && AllIn(ws, Space) && |operand| > 0 && !IsSpace(operand[0]) && '%' in operand
    ensures IsPointer(pre + ("callq" + (ws + operand)))
  {
    var line := pre + ("callq" + (ws + operand));
    AfterMnemonic(pre, "callq", ws + operand);
    AfterSpaceOf(ws, operand);
    assert PointerAt(line, |pre|);
    SpaceBeforeAfter(pre, "callq" + (ws + operand));
  }

  lemma SubOperandsOf(hex: string, ws: string, sp: string)
    requires AllIn(hex, HexDigit) && AllIn(ws, Space) && StackPointer(sp)
    ensures SubOperands("$0x" + (hex + ("," + (ws + sp))))
  {
    var rest := "," + (ws + sp);
    var t := "$0x" + (hex + rest);
    assert t[..3] == "$0x";
    SkipShift("$0x", hex + rest, 0, HexDigit);
    assert rest[0] == ',';
    SkipPrefix(hex, rest, HexDigit);
    assert Skip(t, 3, HexDigit) == 3 + |hex|;
    assert t[3 + |hex|] == ',';
    assert t[3 + |hex| + 1..] == ws + sp;
    SpTailOf(ws, sp);
  }

  /** `sub`, white space, `$0x` and hexadecimal digits, a comma, white space and the stack pointer is a stack allocation. */
  lemma IsSubOf(pre: string, ws: string, hex: string, ws2: string, sp: string)
    requires |pre| > 0 && IsSpace(pre[|pre| - 1])
    requires |ws| > 0 && AllIn(ws, Space) && AllIn(hex, HexDigit) && AllIn(ws2, Space)
    requires StackPointer(sp)
    ensures IsSub(pre + ("sub" + (ws + ("$0x" + (hex + ("," + (ws2 + sp)))))))
  {
    var operands := "$0x" + (hex + ("," + (ws2 + sp)));
    var line := pre + ("sub" + (ws + operands));
    AfterMnemonic(pre, "sub", ws + operands);
    AfterSpaceOf(ws, operands);
    SubOperandsOf(hex, ws2, sp);
    assert SubAt(line, |pre|);
    SpaceBeforeAfter(pre, "sub" + (ws + operands));
  }

  lemma DynamicOperandsOf(register: string, ws: string, sp: string)
    requires AllIn(ws, Space) && StackPointer(sp)
    ensures DynamicOperands("%" + (register + ("," + (ws + sp))))
  {
    var t := "%" + (register + ("," + (ws + sp)));
    var c := 1 + |register|;
    assert t[c] == ',' && t[c + 1..] == ws + sp;
    SpTailOf(ws, sp);
  }

  /** `sub`, white space, a register operand, a comma, white space and the stack pointer is a dynamic allocation. */
  lemma IsDynamicOf(pre: string, ws: string, register: string, ws2: string, sp: string)
    requires |pre| > 0 && IsSpace(pre[|pre| - 1])
    requires |ws| > 0 && AllIn(ws, Space) && AllIn(ws2, Space)
    requires StackPointer(sp)
    ensures IsDynamic(pre + ("sub" + (ws + ("%" + (register + ("," + (ws2 + sp)))))))
  {
    var operands := "%" + (register + ("," + (ws2 + sp)));
    var line := pre + ("sub" + (ws + operands));
    AfterMnemonic(pre, "sub", ws + operands);
    AfterSpaceOf(ws, operands);
    DynamicOperandsOf(register, ws2, sp);
    assert DynamicAt(line, |pre|);
    SpaceBeforeAfter(pre, "sub" + (ws + operands));
  }

  /** `push`, or `push` and the architecture's size letter, then a blank, is a push. */
  lemma IsPushOf(a: Arch, pre: string, lettered: bool, b: char, operand: string)
    requires |pre| > 0 && IsSpace(pre[|pre| - 1]) && IsBlank(b)
    ensures IsPush(a, pre + ("push" + ((if lettered then [SizeLetter(a)] else []) + ([b] + operand))))
  {
    var m := if lettered then [SizeLetter(a)] else [];
    var line := pre + ("push" + (m + ([b] + operand)));
    AfterMnemonic(pre, "push", m + ([b] + operand));
    assert line[|pre| + 4 + |m|] == b;
    if lettered {
      assert line[|pre| + 4] == SizeLetter(a);
    }
    assert PushAt(line, |pre|, SizeLetter(a));
    SpaceBeforeAfter(pre, "push" + (m + ([b] + operand)));
  }

  predicate EndsWith(s: string, suffix: string) {
    |suffix| <= |s| && s[|s| - |suffix|..] == suffix
  }

  lemma EndsWithSlice(s: string, k: nat, suffix: string)
    requires k <= |s| && EndsWith(s[k..], suffix)
    ensures EndsWith(s, suffix)
  {
    assert s[k..][|s| - k - |suffix|..] == s[|s| - |suffix|..];
  }

  lemma SpTailEnds(t: string)
    requires SpTail(t)
    ensures EndsWith(t, "sp")
  {
    var m := Skip(t, 0, Space);
    assert EndsWith(t[m..], "sp");
    EndsWithSlice(t, m, "sp");
  }

  /** A call ends in `>`. */
  lemma CallNeeds(line: string)
    requires IsCall(line)
    ensures EndsWith(line, ">")
  {
    var p :| 0 <= p <= |line| && SpaceBefore(line, p) && CallAt(line, p);
    var t := line[p + 5..];
    var a := Skip(t, 0, Space);
    assert EndsWith(t[a..], ">");
    EndsWithSlice(t, a, ">");
    EndsWithSlice(line, p + 5, ">");
  }

  /** A call through a pointer has a `%` after its `callq`. */
  lemma PointerNeeds(line: string)
    requires IsPointer(line)
    ensures '%' in line
  {
    var p :| 0 <= p <= |line| && SpaceBefore(line, p) && PointerAt(line, p);
    var t := line[p + 5..];
    var u := t[Skip(t, 0, Space)..];
    var j :| 0 <= j < |u| && u[j] == '%';
    assert line[p + 5 + Skip(t, 0, Space) + j] == '%';
  }

  /** A stack allocation by an immediate ends in the stack pointer. */
  lemma SubNeeds(line: string)
    requires IsSub(line)
    ensures EndsWith(line, "sp")
  {
    var p :| 0 <= p <= |line| && SpaceBefore(line, p) && SubAt(line, p);
    SubAtEnds(line, p);
  }

  /** A stack allocation by an immediate at `p` ends in the stack pointer. */
  lemma SubAtEnds(line: string, p: nat)
    requires SubAt(line, p)
    ensures EndsWith(line, "sp")
  {
    var t := line[p + 3..];
    var a := Skip(t, 0, Space);
    SubOperandsEnd(t[a..]);
    EndsWithSlice(t, a, "sp");
    EndsWithSlice(line, p + 3, "sp");
  }

  /** The operands of a stack allocation by an immediate end in the stack pointer. */
  lemma SubOperandsEnd(u: string)
    requires SubOperands(u)
    ensures EndsWith(u, "sp")
  {
    var h := Skip(u, 3, HexDigit);
    SpTailEnds(u[h + 1..]);
    EndsWithSlice(u, h + 1, "sp");
  }

  /** A dynamic stack allocation ends in the stack pointer. */
  lemma DynamicNeeds(line: string)
    requires IsDynamic(line)
    ensures EndsWith(line, "sp")
  {
    var p :| 0 <= p <= |line| && SpaceBefore(line, p) && DynamicAt(line, p);
    var t := line[p + 3..];
    var a := Skip(t, 0, Space);
    DynamicOperandsEnd(t[a..]);
    EndsWithSlice(t, a, "sp");
    EndsWithSlice(line, p + 3, "sp");
  }

  /** The operands of a dynamic stack allocation end in the stack pointer. */
  lemma DynamicOperandsEnd(u: string)
    requires DynamicOperands(u)
    ensures EndsWith(u, "sp")
  {
    var c :| 0 < c < |u| && u[c] == ',' && SpTail(u[c + 1..]);
    SpTailEnds(u[c + 1..]);
    EndsWithSlice(u, c + 1, "sp");
  }

  /** Where the only `h` of a line is. */
  lemma OnlyH(pre: string, post: string, k: nat)
    requires 'h' !in pre && 'h' !in post
    requires k < |pre + "h" + post| && (pre + "h" + post)[k] == 'h'
    ensures k == |pre|
  {
    var line := pre + "h" + post;
    assert forall j :: 0 <= j < |pre| ==> line[j] == pre[j];
    assert forall j :: |pre| < j < |line| ==> line[j] == post[j - |pre| - 1];
  }

  /**
   * A `push` whose `h` is followed by neither a blank nor the size letter
   * and a blank (as in `pushk` and `pushlk`) is not a push, when it is the
   * only `h` of the line.
   */
  lemma PushRejects(a: Arch, pre: string, post: string)
    requires 'h' !in pre && 'h' !in post
    requires |post| > 0 && !IsBlank(post[0])
    requires post[0] == SizeLetter(a) ==> |post| > 1 && !IsBlank(post[1])
    ensures !IsPush(a, pre + "h" + post)
  {
    var line := pre + "h" + post;
    forall p | 0 <= p <= |line| && StartsAt(line, p, "push") ensures p + 3 == |pre| {
      assert line[p + 3] == line[p..p + 4][3];
      OnlyH(pre, post, p + 3);
    }
    assert line[|pre| + 1] == post[0];
    if |post| > 1 {
      assert line[|pre| + 2] == post[1];
    }
  }

  // ---------------------------------------------------------------------
  // Recognisers of the older script's grammars, part by part as above.

  /** `^( )*[0-9a-f]*:( |\t|[0-9a-f])+callq  `: the text after that prefix. */
  function LegacyCallee(line: string): Option<string> {
    var t := line[Skip(line, 0, SpaceChar)..];
    var h := Skip(t, 0, HexDigit);
    if h == |t| || t[h] != ':' then None else LegacyMnemonic(t[h + 1..])
  }

  /**
   * `( |\t|[0-9a-f])+callq  `: the run of blanks and digits also takes the
   * `ca` of `callq`, which are hexadecimal digits, and stops at its `l`.
   */
  function LegacyMnemonic(u: string): Option<string> {
    var b := Skip(u, 0, BlankOrHex);
    if b >= 3 && StartsAt(u, b - 2, "callq  ") then Some(u[b + 5..]) else None
  }

  /** `FunctionCall` of the older script: the prefix, then a call operand. */
  predicate IsLegacyCall(line: string) {
    var o := LegacyCallee(line);
    o.Some? && CallOperand(o.value)
  }

  /** `FunctionPointer` of the older script: the prefix and a `%` somewhere after it. */
  predicate IsLegacyPointer(line: string) {
    var o := LegacyCallee(line);
    o.Some? && '%' in o.value
  }

  /** `,\%(e|r)sp$` ends the text. */
  predicate LegacySpTail(t: string) {
    |t| >= 5 && t[|t| - 5..] in {",%esp", ",%rsp"}
  }

  /** `( |\t)+` then `operands`: the text after a non-empty run of blanks. */
  function AfterBlank(t: string): Option<string> {
    var a := Skip(t, 0, Blank);
    if a == 0 then None else Some(t[a..])
  }

  predicate BlankBefore(line: string, p: nat) {
    0 < p <= |line| && IsBlank(line[p - 1])
  }

  /** `\%.*,\%(e|r)sp$` */
  predicate LegacyDynamicOperands(t: string) {
    |t| >= 6 && t[0] == '%' && LegacySpTail(t)
  }

  /** `\$0x[0-9a-f]*,\%(e|r)sp$` */
  predicate LegacySubOperands(t: string) {
    StartsAt(t, 0, "$0x") && t[Skip(t, 3, HexDigit)..] in {",%esp", ",%rsp"}
  }

  predicate LegacyDynamicAt(line: string, p: nat) {
    && StartsAt(line, p, "sub")
    && var o := AfterBlank(line[p + 3..]);
    && o.Some? && LegacyDynamicOperands(o.value)
  }

  /** `StackDynamicOp` of the older script: `sub`, blanks, `%`, anything, then `,%esp` or `,%rsp` at the end. */
  predicate IsLegacyDynamic(line: string) {
    exists p | 0 <= p <= |line| :: BlankBefore(line, p) && LegacyDynamicAt(line, p)
  }

  predicate LegacySubAt(line: string, p: nat) {
    && StartsAt(line, p, "sub")
    && var o := AfterBlank(line[p + 3..]);
    && o.Some? && LegacySubOperands(o.value)
  }

  /** `StackSubOp` of the older script: `sub`, blanks, `$0x`, hexadecimal digits, then `,%esp` or `,%rsp` at the end. */
  predicate IsLegacySub(line: string) {
    exists p | 0 <= p <= |line| :: BlankBefore(line, p) && LegacySubAt(line, p)
  }

  /** `StackPushOp` of the older script: as in the package, after blanks rather than any white space. */
  predicate IsLegacyPush(a: Arch, line: string) {
    exists p | 0 <= p <= |line| :: BlankBefore(line, p) && PushAt(line, p, SizeLetter(a))
  }

  lemma LegacyMnemonicOf(bytes: string, rest: string)
    requires |bytes| > 0 && AllIn(bytes, BlankOrHex)
    ensures LegacyMnemonic(bytes + ("callq  " + rest)) == Some(rest)
  {
    var u := bytes + ("callq  " + rest);
    assert u == (bytes + "ca") + ("llq  " + rest);
    assert AllIn(bytes + "ca", BlankOrHex) by {
      forall i | 0 <= i < |bytes| + 2 ensures In((bytes + "ca")[i], BlankOrHex) {
        if i < |bytes| {
          assert (bytes + "ca")[i] == bytes[i];
        }
      }
    }
    SkipPrefix(bytes + "ca", "llq  " + rest, BlankOrHex);
    assert u[|bytes|..|bytes| + 7] == "callq  ";
    assert u[|bytes| + 7..] == rest;
  }

  /** The prefix of a line of the older script's call shape: indentation, an address and `:`. */
  lemma LegacyCalleeOf(indent: string, address: string, u: string)
    requires forall i :: 0 <= i < |indent| ==> indent[i] == ' '
    requires |address| > 0 && AllIn(address, HexDigit)
    ensures LegacyCallee(indent + (address + (":" + u))) == LegacyMnemonic(u)
  {
    var t := address + (":" + u);
    var line := indent + t;
    assert In(address[0], HexDigit);
    SkipPrefix(indent, t, SpaceChar);
    assert line[|indent|..] == t;
    SkipPrefix(address, ":" + u, HexDigit);
    assert t[|address|] == ':';
    assert t[|address| + 1..] == u;
  }

  /** With a single blank after `callq` the older script's grammar does not match. */
  lemma LegacyMnemonicOneBlank(bytes: string, hex: string, rest: string)
    requires |bytes| > 0 && AllIn(bytes, BlankOrHex)
    requires |hex| > 0 && AllIn(hex, HexDigit)
    ensures LegacyMnemonic(bytes + ("callq " + (hex + rest))) == None
  {
    var u := bytes + ("callq " + (hex + rest));
    assert u == (bytes + "ca") + ("llq " + (hex + rest));
    assert AllIn(bytes + "ca", BlankOrHex) by {
      forall i | 0 <= i < |bytes| + 2 ensures In((bytes + "ca")[i], BlankOrHex) {
        if i < |bytes| {
          assert (bytes + "ca")[i] == bytes[i];
        }
      }
    }
    SkipPrefix(bytes + "ca", "llq " + (hex + rest), BlankOrHex);
    var b := |bytes| + 2;
    assert In(hex[0], HexDigit);
    assert u[b - 2..b + 5][6] == hex[0] != ' ';
  }

  /** The older script recognises a call whose `callq` is followed by exactly two blanks. */
  lemma IsLegacyCallOf(indent: string, address: string, bytes: string, hex: string, name: string)
    requires forall i :: 0 <= i < |indent| ==> indent[i] == ' '
    requires |address| > 0 && AllIn(address, HexDigit)
    requires |bytes| > 0 && AllIn(bytes, BlankOrHex)
    requires |hex| > 0 && AllIn(hex, HexDigit)
    ensures IsLegacyCall(indent + (address + (":" + (bytes + ("callq  " + (hex + (" <" + name + ">")))))))
  {
    LegacyCalleeOf(indent, address, bytes + ("callq  " + (hex + (" <" + name + ">"))));
    LegacyMnemonicOf(bytes, hex + (" <" + name + ">"));
    CallOperandOf(hex, name);
  }

  /** The older script recognises a call through a pointer the same way. */
  lemma IsLegacyPointerOf(indent: string, address: string, bytes: string, operand: string)
    requires forall i :: 0 <= i < |indent| ==> indent[i] == ' '
    requires |address| > 0 && AllIn(address, HexDigit)
    requires |bytes| > 0 && AllIn(bytes, BlankOrHex)
    requires '%' in operand
    ensures IsLegacyPointer(indent + (address + (":" + (bytes + ("callq  " + operand)))))
  {
    LegacyCalleeOf(indent, address, bytes + ("callq  " + operand));
    LegacyMnemonicOf(bytes, operand);
  }

  /** Blanks before `rest`, which starts with no blank, are skipped by `( |\t)+`. */
  lemma AfterBlankOf(bs: string, rest: string)
    requires |bs| > 0 && AllIn(bs, Blank) && |rest| > 0 && !IsBlank(rest[0])
    ensures AfterBlank(bs + rest) == Some(rest)
  {
    SkipPrefix(bs, rest, Blank);
    assert (bs + rest)[|bs|..] == rest;
  }

  lemma BlankBeforeAfter(pre: string, rest: string)
    requires |pre| > 0 && IsBlank(pre[|pre| - 1])
    ensures BlankBefore(pre + rest, |pre|)
  {
    assert (pre + rest)[|pre| - 1] == pre[|pre| - 1];
  }

  lemma LegacySubOperandsOf(hex: string, sp: string)
    requires AllIn(hex, HexDigit) && sp in {",%esp", ",%rsp"}
    ensures LegacySubOperands("$0x" + (hex + sp))
  {
    var t := "$0x" + (hex + sp);
    assert t[..3] == "$0x";
    SkipShift("$0x", hex + sp, 0, HexDigit);
    SkipPrefix(hex, sp, HexDigit);
    assert t[3 + |hex|..] == sp;
  }

  lemma LegacyDynamicOperandsOf(register: string, sp: string)
    requires sp in {",%esp", ",%rsp"}
    ensures LegacyDynamicOperands("%" + (register + sp))
  {
    var t := "%" + (register + sp);
    assert t[|t| - 5..] == sp;
  }

  /** `sub`, blanks, `$0x`, hexadecimal digits and `,%esp` or `,%rsp` is a stack allocation for the older script. */
  lemma IsLegacySubOf(pre: string, bs: string, hex: string, sp: string)
    requires |pre| > 0 && IsBlank(pre[|pre| - 1])
    requires |bs| > 0 && AllIn(bs, Blank) && AllIn(hex, HexDigit) && sp in {",%esp", ",%rsp"}
    ensures IsLegacySub(pre + ("sub" + (bs + ("$0x" + (hex + sp)))))
  {
    var operands := "$0x" + (hex + sp);
    var line := pre + ("sub" + (bs + operands));
    AfterMnemonic(pre, "sub", bs + operands);
    AfterBlankOf(bs, operands);
    LegacySubOperandsOf(hex, sp);
    assert LegacySubAt(line, |pre|);
    BlankBeforeAfter(pre, "sub" + (bs + operands));
  }

  /** `sub`, blanks, `%`, a register and `,%esp` or `,%rsp` is a dynamic allocation for the older script. */
  lemma IsLegacyDynamicOf(pre: string, bs: string, register: string, sp: string)
    requires |pre| > 0 && IsBlank(pre[|pre| - 1])
    requires |bs| > 0 && AllIn(bs, Blank) && sp in {",%esp", ",%rsp"}
    ensures IsLegacyDynamic(pre + ("sub" + (bs + ("%" + (register + sp)))))
  {
    var operands := "%" + (register + sp);
    var line := pre + ("sub" + (bs + operands));
    AfterMnemonic(pre, "sub", bs + operands);
    AfterBlankOf(bs, operands);
    LegacyDynamicOperandsOf(register, sp);
    assert LegacyDynamicAt(line, |pre|);
    BlankBeforeAfter(pre, "sub" + (bs + operands));
  }

  /** A stack-allocating line of the older script ends in `,%esp` or `,%rsp`, as the package's lines end in the stack pointer. */
  lemma LegacySubNeeds(line: string)
    requires IsLegacySub(line)
    ensures EndsWith(line, "sp")
  {
    var p :| 0 <= p <= |line| && BlankBefore(line, p) && LegacySubAt(line, p);
    var t := line[p + 3..];
    var u := t[Skip(t, 0, Blank)..];
    var h := Skip(u, 3, HexDigit);
    assert EndsWith(u[h..], "sp");
    EndsWithSlice(u, h, "sp");
    EndsWithSlice(t, Skip(t, 0, Blank), "sp");
    EndsWithSlice(line, p + 3, "sp");
  }

  /** `callq` with one blank after it is a call for the package but not for the older script. */
  lemma LegacyCallNeedsTwoBlanks(indent: string, address: string, bytes: string, hex: string, name: string)
    requires forall i :: 0 <= i < |indent| ==> indent[i] == ' '
    requires |address| > 0 && AllIn(address, HexDigit)
    requires |bytes| > 0 && AllIn(bytes, BlankOrHex) && IsSpace(bytes[|bytes| - 1])
    requires |hex| > 0 && AllIn(hex, HexDigit)
    ensures !IsLegacyCall(indent + (address + (":" + (bytes + ("callq " + (hex + (" <" + name + ">")))))))
    ensures IsCall(indent + (address + (":" + bytes)) + ("callq" + (" " + (hex + (" <" + name + ">")))))
  {
    LegacyCalleeOf(indent, address, bytes + ("callq " + (hex + (" <" + name + ">"))));
    LegacyMnemonicOneBlank(bytes, hex, " <" + name + ">");
    var pre := indent + (address + (":" + bytes));
    assert pre[|pre| - 1] == bytes[|bytes| - 1];
    IsCallOf(pre, " ", hex, name);
  }
}
