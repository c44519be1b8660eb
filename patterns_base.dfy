/**
 * What every architecture's patterns share: the builder of instruction
 * grammars, the grammars of the file-format, section and function-label
 * lines of an objdump listing, and the decoders of those lines and of the
 * mnemonic of an instruction line.
 *
 * A grammar is modelled by a recogniser written for it: a predicate on the
 * line that holds exactly when `re.match` of the grammar finds a match.
 */
module Patterns {
  import opened Wrappers
  import opened Text
  import opened Numbers
  import opened Architecture

  /** Functions the start-up and tear-down code of the C runtime contributes. */
  const OS_FUNCTIONS: seq<string> := [
    "register_tm_clones", "deregister_tm_clones", "frame_dummy", "call_weak_fn",
    "abort@plt", ".plt", "_init", "_start", "_fini", "__libc_csu_init", "__libc_csu_fini",
    "__init_array_start", "__init_array_end", "__do_global_dtors_aux",
    "__do_global_dtors_aux_fini_array_entry", "__frame_dummy_init_array_entry",
    "__libc_start_main@plt", "__gmon_start__@plt"
  ]

  /** The white space between the parts of an instruction: `\s` in the package, a blank in the older script. */
  function Gap(v: Variant): CharClass {
    if v == Package then Space else Blank
  }

  // ---------------------------------------------------------------------
  // The grammar builder

  /** What comes before the mnemonic. */
  function Lead(v: Variant): string {
    if v == Package then ".*\\s+" else ".*( |\t)+"
  }

  /** What comes between the mnemonic and the first operand. */
  function OperandSep(v: Variant): string {
    if v == Package then "\\s+" else "( |\t)+"
  }

  /** What comes between two operands. */
  function ListSep(v: Variant): string {
    if v == Package then ",\\s*" else ",( |\t)+"
  }

  /** `_operation(*args)`: the grammar of a mnemonic and its operands; without arguments it fails on `args[0]`. */
  function Operation(v: Variant, args: seq<string>): (r: Result<string>)
    ensures r.Err? <==> |args| == 0
    ensures r.Err? ==> r.error == IndexError
  {
    if |args| == 0 then Err(IndexError)
    else if |args| == 1 then Ok(Lead(v) + args[0])
    else Ok(AppendOperands(v, Lead(v) + args[0] + OperandSep(v) + args[1], args[2..]))
  }

  /** The loop that appends each further operand behind a list separator. */
  function AppendOperands(v: Variant, op: string, rest: seq<string>): string
    decreases |rest|
  {
    if |rest| == 0 then op else AppendOperands(v, op + ListSep(v) + rest[0], rest[1..])
  }

  lemma JoinShift(first: string, rest: seq<string>, sep: string)
    requires |rest| > 0
    ensures Join([first + sep + rest[0]] + rest[1..], sep) == Join([first] + rest, sep)
  {
    assert ([first] + rest)[1..] == rest;
    assert ([first + sep + rest[0]] + rest[1..])[1..] == rest[1..];
  }

  lemma {:induction false} AppendOperandsJoin(v: Variant, op: string, first: string, rest: seq<string>)
    ensures AppendOperands(v, op + first, rest) == op + Join([first] + rest, ListSep(v))
    decreases |rest|
  {
    if |rest| == 0 {
      assert [first] + rest == [first];
    } else {
      var next := first + ListSep(v) + rest[0];
      assert op + first + ListSep(v) + rest[0] == op + next;
      AppendOperandsJoin(v, op, next, rest[1..]);
      JoinShift(first, rest, ListSep(v));
    }
  }

  /** The grammar is the lead, the mnemonic and, if there are operands, the operand separator and the operands joined by the list separator. */
  lemma OperationJoin(v: Variant, args: seq<string>)
    requires |args| >= 1
    ensures Operation(v, args) == Ok(
      if |args| == 1 then Lead(v) + args[0]
      else Lead(v) + args[0] + OperandSep(v) + Join(args[1..], ListSep(v)))
  {
    if |args| > 1 {
      AppendOperandsJoin(v, Lead(v) + args[0] + OperandSep(v), args[1], args[2..]);
      assert [args[1]] + args[2..] == args[1..];
    }
  }

  lemma OperationExamples()
    ensures Operation(Package, ["inst"]) == Ok(".*\\s+inst")
    ensures Operation(Package, ["inst", "reg1"]) == Ok(".*\\s+inst\\s+reg1")
    ensures Operation(Package, ["inst", "reg1", "reg2"]) == Ok(".*\\s+inst\\s+reg1,\\s*reg2")
    ensures Operation(Package, ["inst", "reg1", "reg2", "reg3"]) == Ok(".*\\s+inst\\s+reg1,\\s*reg2,\\s*reg3")
  {
    var l, o, c := Lead(Package), OperandSep(Package), ListSep(Package);
    assert Operation(Package, ["inst"]) == Ok(".*\\s+inst") by {
      var a := ["inst"];
      assert Operation(Package, a) == Ok(l + a[0]);
      assert l + a[0] == ".*\\s+inst";
    }
    assert Operation(Package, ["inst", "reg1"]) == Ok(".*\\s+inst\\s+reg1") by {
      var a := ["inst", "reg1"];
      assert Operation(Package, a) == Ok(AppendOperands(Package, l + "inst" + o + "reg1", [])) by {
        assert a[2..] == [];
      }
      assert l + "inst" + o + "reg1" == ".*\\s+inst\\s+reg1";
    }
    assert Operation(Package, ["inst", "reg1", "reg2"]) == Ok(".*\\s+inst\\s+reg1,\\s*reg2") by {
      var a := ["inst", "reg1", "reg2"];
      var op := l + "inst" + o + "reg1";
      assert Operation(Package, a) == Ok(AppendOperands(Package, op, ["reg2"])) by {
        assert a[2..] == ["reg2"];
      }
      assert AppendOperands(Package, op, ["reg2"]) == op + c + "reg2" by {
        assert ["reg2"][1..] == [];
      }
      assert op + c + "reg2" == ".*\\s+inst\\s+reg1,\\s*reg2";
    }
    assert Operation(Package, ["inst", "reg1", "reg2", "reg3"]) == Ok(".*\\s+inst\\s+reg1,\\s*reg2,\\s*reg3") by {
      var a := ["inst", "reg1", "reg2", "reg3"];
      var op := l + "inst" + o + "reg1";
      assert Operation(Package, a) == Ok(AppendOperands(Package, op, ["reg2", "reg3"])) by {
        assert a[2..] == ["reg2", "reg3"];
      }
      assert AppendOperands(Package, op, ["reg2", "reg3"]) == AppendOperands(Package, op + c + "reg2", ["reg3"]) by {
        assert ["reg2", "reg3"][1..] == ["reg3"];
      }
      assert AppendOperands(Package, op + c + "reg2", ["reg3"]) == op + c + "reg2" + c + "reg3" by {
        assert ["reg3"][1..] == [];
      }
      assert op + c + "reg2" + c + "reg3" == ".*\\s+inst\\s+reg1,\\s*reg2,\\s*reg3";
    }
  }

  // ---------------------------------------------------------------------
  // `^.*:( |\t)*file format `

  const FILE_FORMAT := "file format "

  /** The line holds a colon followed, after optional blanks, by `file format `. */
  predicate IsFileFormat(line: string) {
    exists p | 0 <= p < |line| :: FileFormatAt(line, p)
  }

  predicate FileFormatAt(line: string, p: nat) {
    p < |line| && line[p] == ':' && StartsAt(line, Skip(line, p + 1, Blank), FILE_FORMAT)
  }

  /** Any text, a colon, blanks and `file format ` start a file-format line. */
  lemma FileFormatOf(a: string, w: string, b: string)
    requires AllIn(w, Blank)
    ensures IsFileFormat(a + ":" + w + FILE_FORMAT + b)
  {
    var line := a + ":" + w + FILE_FORMAT + b;
    var tail := w + FILE_FORMAT + b;
    assert line == (a + ":") + tail;
    SkipShift(a + ":", tail, 0, Blank);
    assert tail[|w|] == 'f';
    SkipIs(tail, 0, |w|, Blank);
    StartsAtShift(a + ":", tail, |w|, FILE_FORMAT);
    assert tail[|w|..|w| + |FILE_FORMAT|] == FILE_FORMAT;
    assert FileFormatAt(line, |a|);
  }

  /** With a single colon, the line is a file-format line exactly when `file format ` follows it after blanks. */
  lemma FileFormatSingleColon(a: string, b: string)
    requires ':' !in a && ':' !in b
    ensures IsFileFormat(a + ":" + b) <==> StartsAt(b, Skip(b, 0, Blank), FILE_FORMAT)
  {
    var line := a + ":" + b;
    var j := Skip(b, 0, Blank);
    SkipShift(a + ":", b, 0, Blank);
    StartsAtShift(a + ":", b, j, FILE_FORMAT);
    assert Skip(line, |a| + 1, Blank) == |a| + 1 + j;
    forall p | 0 <= p < |line| && p != |a|
      ensures line[p] != ':'
    {
      if p < |a| {
        assert line[p] == a[p];
      } else {
        assert line[p] == b[p - |a| - 1];
      }
    }
    assert line[|a|] == ':';
    if IsFileFormat(line) {
      var p :| 0 <= p < |line| && FileFormatAt(line, p);
      assert p == |a|;
    }
    if StartsAt(b, j, FILE_FORMAT) {
      assert FileFormatAt(line, |a|);
    }
  }

  /** A file-format line holds a colon and the words `file format `. */
  lemma FileFormatNeeds(line: string)
    requires IsFileFormat(line)
    ensures ':' in line && Contains(line, FILE_FORMAT)
  {
    var p :| 0 <= p < |line| && FileFormatAt(line, p);
    assert line[p] == ':';
    assert StartsAt(line, Skip(line, p + 1, Blank), FILE_FORMAT);
  }

  /** A colon followed by blanks and something other than `file format ` does not start a file-format line. */
  lemma FileFormatNot(a: string, w: string, c: string)
    requires ':' !in a && ':' !in w && ':' !in c
    requires AllIn(w, Blank) && |c| > 0 && !IsBlank(c[0]) && !StartsAt(c, 0, FILE_FORMAT)
    ensures !IsFileFormat(a + ":" + w + c)
  {
    FileFormatSingleColon(a, w + c);
    assert a + ":" + w + c == a + ":" + (w + c);
    assert (w + c)[|w|] == c[0];
    SkipIs(w + c, 0, |w|, Blank);
    StartsAtShift(w, c, 0, FILE_FORMAT);
  }

  /** A header line of an x86-64 dump (written as its parts). */
  lemma FileFormatElf()
    ensures IsFileFormat("filename" + ":" + "      " + "file format " + "elf64-x86-64")
  {
    FileFormatOf("filename", "      ", "elf64-x86-64");
  }

  /** A header line whose file name is a path. */
  lemma FileFormatPath()
    ensures IsFileFormat("tests/dep-aarch64_O1" + ":" + "     " + "file format " + "elf64-little")
  {
    FileFormatOf("tests/dep-aarch64_O1", "     ", "elf64-little");
  }

  /** A misspelt header is not a file-format line. */
  lemma FileFormatMisspelt()
    ensures !IsFileFormat("filename" + ":" + "      " + "fil format elf64-x86-64")
  {
    var c := "fil format elf64-x86-64";
    assert c[3] == ' ' && FILE_FORMAT[3] == 'e';
    FileFormatNot("filename", "      ", c);
  }

  // ---------------------------------------------------------------------
  // `^Disassembly of section .*:`

  const SECTION := "Disassembly of section "

  predicate IsSection(line: string) {
    StartsAt(line, 0, SECTION) && ':' in line[|SECTION|..]
  }

  /** `get_section`: the last blank-separated word without its last character. */
  function GetSection(line: string): string {
    Slice(Last(Split(line, ' ')), 0, 1)
  }

  /** The name in a section header is its last word up to the colon. */
  lemma GetSectionOf(q: string, name: string)
    requires ' ' !in name
    ensures GetSection(q + " " + name + ":") == name
  {
    assert q + " " + name + ":" == q + [' '] + (name + ":");
    SplitConcat(q, ' ', name + ":");
    SplitFree(name + ":", ' ');
  }

  /** A section header names its section. */
  lemma SectionOf(name: string)
    ensures IsSection(SECTION + name + ":")
    ensures ' ' !in name ==> GetSection(SECTION + name + ":") == name
  {
    var line := SECTION + name + ":";
    assert line[..|SECTION|] == SECTION;
    assert line[|SECTION|..] == name + ":";
    assert (name + ":")[|name|] == ':';
    if ' ' !in name {
      assert line == "Disassembly of section" + " " + name + ":";
      GetSectionOf("Disassembly of section", name);
    }
  }

  lemma SectionExamples()
    ensures IsSection(SECTION + "main" + ":") && GetSection(SECTION + "main" + ":") == "main"
    ensures IsSection(SECTION + ".plt" + ":") && GetSection(SECTION + ".plt" + ":") == ".plt"
    ensures IsSection(SECTION + "__libc_start_main@plt" + ":")
         && GetSection(SECTION + "__libc_start_main@plt" + ":") == "__libc_start_main@plt"
    ensures !IsSection(SECTION + "main")
    ensures !IsSection("Disassembly of main:")
  {
    SectionOf("main");
    SectionOf(".plt");
    SectionOf("__libc_start_main@plt");
    assert (SECTION + "main")[|SECTION|..] == "main";
  }

  // ---------------------------------------------------------------------
  // `^[0-9a-f]* \<.*\>:$`

  /** Hexadecimal digits, ` <`, anything, and `>:` at the end of the line. */
  predicate IsFunctionLabel(line: string) {
    var h := Skip(line, 0, HexDigit);
    h + 4 <= |line| && StartsAt(line, h, " <") && line[|line| - 2..] == ">:"
  }

  /** `get_function`: the hexadecimal value of the first word, and the rest without `<` and `>:`. */
  function GetFunction(line: string): Result<(int, string)> {
    var words := Split(line, ' ');
    match ParseInt(words[0], Hexadecimal)
    case Err(e) => Err(e)
    case Ok(address) => Ok((address, Slice(Join(words[1..], " "), 1, 2)))
  }

  /** Hexadecimal digits followed by ` <name>:` form a label, whatever the name holds. */
  lemma FunctionLabelOf(h: string, name: string)
    requires AllIn(h, HexDigit)
    ensures IsFunctionLabel(h + " <" + name + ">:")
  {
    var line := h + " <" + name + ">:";
    assert line == h + (" <" + name + ">:");
    SkipShift(h, " <" + name + ">:", 0, HexDigit);
    SkipIs(" <" + name + ">:", 0, 0, HexDigit);
    SkipIs(h, 0, |h|, HexDigit);
    assert line[|h|..|h| + 2] == " <";
    assert line[|line| - 2..] == ">:";
  }

  /** A label is its hexadecimal digits, ` <`, a middle part and `>:`. */
  lemma FunctionLabelParts(line: string)
    requires IsFunctionLabel(line)
    ensures var h := Skip(line, 0, HexDigit);
      AllIn(line[..h], HexDigit) && line == line[..h] + " <" + line[h + 2..|line| - 2] + ">:"
  {
    var h := Skip(line, 0, HexDigit);
    assert line[h..h + 2] == " <";
    Pieces(line, h, h + 2, |line| - 2);
  }

  /** A string is the concatenation of its pieces between three cut points. */
  lemma Pieces(s: string, i: nat, j: nat, k: nat)
    requires i <= j <= k <= |s|
    ensures s == s[..i] + s[i..j] + s[j..k] + s[k..]
  {
    assert s[..j] == s[..i] + s[i..j];
    assert s[..k] == s[..j] + s[j..k];
    assert s == s[..k] + s[k..];
  }

  /** A label with a non-empty address decodes to that address and the name between the brackets. */
  lemma GetFunctionOf(h: string, name: string)
    requires |h| > 0 && AllIn(h, HexDigit)
    ensures GetFunction(h + " <" + name + ">:") == Ok((HexValue(h), name))
  {
    var r := "<" + name + ">:";
    assert h + " <" + name + ">:" == h + [' '] + r;
    SplitConcat(h, ' ', r);
    assert ' ' !in h by {
      forall i | 0 <= i < |h| ensures h[i] != ' ' {
        assert In(h[i], HexDigit);
      }
    }
    SplitFree(h, ' ');
    var words := Split(h + [' '] + r, ' ');
    assert words[0] == h && words[1..] == Split(r, ' ');
    JoinSplit(r, ' ');
    ParseHexDigits(h);
    assert r[1..|r| - 2] == name;
  }

  /** Every label the grammar accepts with a non-empty address decodes to the parts the grammar delimits. */
  lemma FunctionLabelDecodes(line: string)
    requires IsFunctionLabel(line) && Skip(line, 0, HexDigit) > 0
    ensures var h := Skip(line, 0, HexDigit);
      GetFunction(line) == Ok((HexValue(line[..h]), line[h + 2..|line| - 2]))
  {
    var h := Skip(line, 0, HexDigit);
    FunctionLabelParts(line);
    GetFunctionOf(line[..h], line[h + 2..|line| - 2]);
  }

  /** The grammar admits a label without an address, which `get_function` cannot decode. */
  lemma FunctionLabelWithoutAddress(name: string)
    ensures IsFunctionLabel(" <" + name + ">:")
    ensures GetFunction(" <" + name + ">:") == Err(ValueError)
  {
    FunctionLabelOf("", name);
    assert "" + " <" + name + ">:" == " <" + name + ">:";
    var r := "<" + name + ">:";
    assert " <" + name + ">:" == "" + [' '] + r;
    SplitConcat("", ' ', r);
    assert Split(" <" + name + ">:", ' ')[0] == "";
    assert !Grouped("", Hexadecimal);
  }

  /** The hexadecimal value of `z + ds` for leading zeros `z`. */
  lemma LabelExample(z: string, ds: string, name: string, v: nat)
    requires forall i :: 0 <= i < |z| ==> z[i] == '0'
    requires |ds| > 0 && AllIn(ds, HexDigit) && HexValue(ds) == v
    ensures IsFunctionLabel(z + ds + " <" + name + ">:")
    ensures GetFunction(z + ds + " <" + name + ">:") == Ok((v, name))
  {
    HexLeadingZeros(z, ds);
    FunctionLabelOf(z + ds, name);
    GetFunctionOf(z + ds, name);
  }

  lemma HexLeadingZeros(z: string, ds: string)
    requires forall i :: 0 <= i < |z| ==> z[i] == '0'
    requires AllIn(ds, HexDigit)
    ensures AllIn(z + ds, HexDigit) && HexValue(z + ds) == HexValue(ds)
  {
    assert forall i :: 0 <= i < |z + ds| ==> (z + ds)[i] == if i < |z| then z[i] else ds[i - |z|];
    assert AllIn(z + ds, HexDigit);
    assert AllDigits(ds, Hexadecimal) by {
      forall i | 0 <= i < |ds| ensures IsDigitOf(ds[i], Hexadecimal) {
        assert In(ds[i], HexDigit);
      }
    }
    ValueOfLeadingZeros(z, ds, Hexadecimal);
  }

  /** A label has ` <` after its address and ends in `>:`. */
  lemma FunctionLabelNeeds(line: string)
    requires IsFunctionLabel(line)
    ensures Contains(line, " <") && |line| >= 4 && line[|line| - 2] == '>' && line[|line| - 1] == ':'
  {
    assert line[|line| - 2..][0] == line[|line| - 2];
    assert line[|line| - 2..][1] == line[|line| - 1];
  }

  /** A label line of the tests (written as its parts: ten zeros, six digits, the name). */
  lemma FunctionMain()
    ensures IsFunctionLabel("0000000000" + "40076d" + " <" + "main" + ">:")
    ensures GetFunction("0000000000" + "40076d" + " <" + "main" + ">:") == Ok((0x40076d, "main"))
  {
    HexDigitsValue6("40076d", 0x40076d);
    LabelExample("0000000000", "40076d", "main", 0x40076d);
  }

  lemma FunctionPlt()
    ensures GetFunction("0000000000" + "400370" + " <" + ".plt" + ">:") == Ok((0x400370, ".plt"))
  {
    HexDigitsValue6("400370", 0x400370);
    LabelExample("0000000000", "400370", ".plt", 0x400370);
  }

  lemma FunctionLibcStart()
    ensures GetFunction("0000000000" + "400390" + " <" + "__libc_start_main@plt" + ">:")
         == Ok((0x400390, "__libc_start_main@plt"))
  {
    HexDigitsValue6("400390", 0x400390);
    LabelExample("0000000000", "400390", "__libc_start_main@plt", 0x400390);
  }

  /** Lines of the tests that are not labels: none of them ends in `>:`. */
  lemma FunctionNotLabels()
    ensures !IsFunctionLabel("000000000040076d <main>")
    ensures !IsFunctionLabel("000000000040076d main")
    ensures !IsFunctionLabel("000000000040076d")
    ensures !IsFunctionLabel("main")
  {
    NotLabel("000000000040076d <main>");
    NotLabel("000000000040076d main");
    NotLabel("000000000040076d");
    NotLabel("main");
  }

  lemma NotLabel(line: string)
    requires |line| == 0 || line[|line| - 1] != ':'
    ensures !IsFunctionLabel(line)
  {
    if IsFunctionLabel(line) {
      FunctionLabelNeeds(line);
    }
  }

  /** The value of six hexadecimal digits, digit by digit. */
  lemma HexDigitsValue6(ds: string, v: nat)
    requires |ds| == 6 && AllIn(ds, HexDigit)
    requires v == ((((DigitValue(ds[0], Hexadecimal) * 16 + DigitValue(ds[1], Hexadecimal)) * 16
                  + DigitValue(ds[2], Hexadecimal)) * 16 + DigitValue(ds[3], Hexadecimal)) * 16
                  + DigitValue(ds[4], Hexadecimal)) * 16 + DigitValue(ds[5], Hexadecimal)
    ensures HexValue(ds) == v
  {
    var h := Hexadecimal;
    assert AllDigits(ds, h) by {
      forall i | 0 <= i < |ds| ensures IsDigitOf(ds[i], h) {
        assert In(ds[i], HexDigit);
      }
    }
    assert ValueOf(ds, h) == ValueOf(ds[..5], h) * 16 + DigitValue(ds[5], h);
    assert ds[..5][..4] == ds[..4] && ds[..5][4] == ds[4];
    assert ValueOf(ds[..5], h) == ValueOf(ds[..4], h) * 16 + DigitValue(ds[4], h);
    assert ds[..4][..3] == ds[..3] && ds[..4][3] == ds[3];
    assert ValueOf(ds[..4], h) == ValueOf(ds[..3], h) * 16 + DigitValue(ds[3], h);
    assert ds[..3][..2] == ds[..2] && ds[..3][2] == ds[2];
    assert ValueOf(ds[..3], h) == ValueOf(ds[..2], h) * 16 + DigitValue(ds[2], h);
    assert ds[..2][..1] == ds[..1] && ds[..2][1] == ds[1];
    assert ValueOf(ds[..2], h) == ValueOf(ds[..1], h) * 16 + DigitValue(ds[1], h);
    assert ds[..1][..0] == ds[..0] && ds[..1][0] == ds[0];
    assert ValueOf(ds[..1], h) == DigitValue(ds[0], h);
  }

  // ---------------------------------------------------------------------
  // `get_operation`

  /**
   * Where a match of `^\s+[0-9a-f]+:\s+([0-9a-f]+ )+\s+` ends, if the line
   * has one: white space, the address and a colon, then what `BytesEnd`
   * reads.
   */
  function OperationStart(line: string): (e: Option<nat>)
    ensures e.Some? ==> e.value <= |line|
  {
    var a := Skip(line, 0, Space);
    var b := Skip(line, a, HexDigit);
    if a == 0 || b == a || b == |line| || line[b] != ':' then None
    else BytesEnd(line, b + 1)
  }

  /** From `i`: white space, at least one group of `[0-9a-f]+ `, white space; where that ends. */
  function BytesEnd(line: string, i: nat): (e: Option<nat>)
    requires i <= |line|
    ensures e.Some? ==> i <= e.value <= |line|
  {
    var c := Skip(line, i, Space);
    var g := ByteGroups(line, c);
    if c == i || g == c || g == |line| || !IsSpace(line[g]) then None
    else Some(Skip(line, g, Space))
  }

  /** The end of the longest run of `[0-9a-f]+ ` groups that starts at `i`. */
  function ByteGroups(line: string, i: nat): (g: nat)
    requires i <= |line|
    ensures i <= g <= |line|
    decreases |line| - i
  {
    var k := Skip(line, i, HexDigit);
    if k > i && k < |line| && line[k] == ' ' then ByteGroups(line, k + 1) else i
  }

  /** The text from `i` up to the next white space: `re.split("\s", line[i:])[0]`. */
  function Token(line: string, i: nat): (t: string)
    requires i <= |line|
    ensures AllIn(t, NonSpace)
  {
    line[i..Skip(line, i, NonSpace)]
  }

  /** `get_operation`: the word after the instruction bytes, or nothing for a line of another shape. */
  function GetOperation(line: string): (r: Option<string>)
    ensures r.Some? ==> AllIn(r.value, NonSpace)
  {
    match OperationStart(line)
    case None => None
    case Some(e) => Some(Token(line, e))
  }

  /** Instruction bytes as objdump prints them: each followed by one blank. */
  function Bytes(bytes: seq<string>): string {
    if |bytes| == 0 then "" else bytes[0] + " " + Bytes(bytes[1..])
  }

  predicate HexWords(bytes: seq<string>) {
    forall i :: 0 <= i < |bytes| ==> |bytes[i]| > 0 && AllIn(bytes[i], HexDigit)
  }

  /** Groups in the second part of a concatenation end where they end in that part. */
  lemma {:induction false} ByteGroupsShift(x: string, y: string, i: nat)
    requires i <= |y|
    ensures ByteGroups(x + y, |x| + i) == |x| + ByteGroups(y, i)
    decreases |y| - i
  {
    var k := Skip(y, i, HexDigit);
    SkipShift(x, y, i, HexDigit);
    if k > i && k < |y| && y[k] == ' ' {
      assert (x + y)[|x| + k] == y[k];
      ByteGroupsShift(x, y, k + 1);
    }
  }

  /** The groups of bytes followed by something other than a digit end where the bytes end. */
  lemma {:induction false} ByteGroupsOver(bytes: seq<string>, post: string)
    requires HexWords(bytes)
    requires |post| == 0 || !IsHexDigit(post[0])
    ensures ByteGroups(Bytes(bytes) + post, 0) == |Bytes(bytes)|
    decreases |bytes|
  {
    var s := Bytes(bytes) + post;
    if |bytes| == 0 {
      assert s == post;
      SkipIs(s, 0, 0, HexDigit);
    } else {
      var w := bytes[0];
      var rest := Bytes(bytes[1..]) + post;
      assert s == (w + " ") + rest;
      assert forall m :: 0 <= m < |w| ==> s[m] == w[m];
      assert s[|w|] == ' ';
      SkipIs(s, 0, |w|, HexDigit);
      ByteGroupsOver(bytes[1..], post);
      ByteGroupsShift(w + " ", rest, 0);
    }
  }

  lemma BytesEndShift(x: string, y: string, i: nat)
    requires i <= |y|
    ensures BytesEnd(y, i).Some? ==> BytesEnd(x + y, |x| + i) == Some(|x| + BytesEnd(y, i).value)
  {
    var s := x + y;
    var c := Skip(y, i, Space);
    var g := ByteGroups(y, c);
    SkipShift(x, y, i, Space);
    ByteGroupsShift(x, y, c);
    assert Skip(s, |x| + i, Space) == |x| + c;
    assert ByteGroups(s, |x| + c) == |x| + g;
    if g < |y| {
      assert s[|x| + g] == y[g];
      SkipShift(x, y, g, Space);
    }
  }

  lemma TokenShift(x: string, y: string, i: nat)
    requires i <= |y|
    ensures Token(x + y, |x| + i) == Token(y, i)
  {
    SkipShift(x, y, i, NonSpace);
    assert (x + y)[|x| + i..|x| + Skip(y, i, NonSpace)] == y[i..Skip(y, i, NonSpace)];
  }

  /** After the colon: white space, the bytes and white space end where the mnemonic starts. */
  lemma BytesEndOf(gap: string, bytes: seq<string>, pad: string, tail: string)
    requires |gap| > 0 && AllIn(gap, Space)
    requires |bytes| > 0 && HexWords(bytes)
    requires |pad| > 0 && AllIn(pad, Space)
    requires |tail| > 0 && !IsSpace(tail[0])
    ensures BytesEnd(gap + (Bytes(bytes) + (pad + tail)), 0) == Some(|gap| + |Bytes(bytes)| + |pad|)
  {
    var bs := Bytes(bytes);
    var line := gap + (bs + (pad + tail));
    var g := |gap| + |bs|;
    BytesRunOf(gap, bytes, pad + tail);
    assert line[g] == pad[0] && In(pad[0], Space);
    PadEnd(gap + bs, pad, tail);
    assert line == (gap + bs) + (pad + tail);
  }

  /** White space then the bytes: the spaces end where the bytes start and the groups where they end. */
  lemma BytesRunOf(gap: string, bytes: seq<string>, post: string)
    requires |gap| > 0 && AllIn(gap, Space)
    requires |bytes| > 0 && HexWords(bytes)
    requires |post| == 0 || !IsHexDigit(post[0])
    ensures Skip(gap + (Bytes(bytes) + post), 0, Space) == |gap|
    ensures ByteGroups(gap + (Bytes(bytes) + post), |gap|) == |gap| + |Bytes(bytes)|
  {
    var bs := Bytes(bytes);
    var r := bs + post;
    assert In(bytes[0][0], HexDigit) && r[0] == bs[0] == bytes[0][0];
    SkipPrefix(gap, r, Space);
    ByteGroupsOver(bytes, post);
    ByteGroupsShift(gap, r, 0);
  }

  lemma PadEnd(x: string, pad: string, tail: string)
    requires AllIn(pad, Space)
    requires |tail| > 0 && !IsSpace(tail[0])
    ensures Skip(x + (pad + tail), |x|, Space) == |x| + |pad|
  {
    SkipPrefix(pad, tail, Space);
    SkipShift(x, pad + tail, 0, Space);
  }

  /** An instruction line: indentation, address, a colon, white space, the bytes, white space, the mnemonic, the rest. */
  function InstructionLine(indent: string, address: string, gap: string, bytes: seq<string>,
                           pad: string, mnemonic: string, rest: string): string
  {
    indent + (address + (":" + (gap + (Bytes(bytes) + (pad + (mnemonic + rest))))))
  }

  /** The parts of an instruction line each have the shape `get_operation` expects. */
  predicate WellFormed(indent: string, address: string, gap: string, bytes: seq<string>,
                       pad: string, mnemonic: string, rest: string)
  {
    && |indent| > 0 && AllIn(indent, Space)
    && |address| > 0 && AllIn(address, HexDigit)
    && |gap| > 0 && AllIn(gap, Space)
    && |bytes| > 0 && HexWords(bytes)
    && |pad| > 0 && AllIn(pad, Space)
    && |mnemonic| > 0 && AllIn(mnemonic, NonSpace)
    && (rest == "" || IsSpace(rest[0]))
  }

  /** `get_operation` finds the mnemonic of every well-formed instruction line. */
  lemma GetOperationOf(indent: string, address: string, gap: string, bytes: seq<string>,
                       pad: string, mnemonic: string, rest: string)
    requires WellFormed(indent, address, gap, bytes, pad, mnemonic, rest)
    ensures GetOperation(InstructionLine(indent, address, gap, bytes, pad, mnemonic, rest)) == Some(mnemonic)
  {
    var line := InstructionLine(indent, address, gap, bytes, pad, mnemonic, rest);
    OperationStartLine(indent, address, gap, bytes, pad, mnemonic, rest);
    GetOperationAt(line, |indent| + |address| + 1 + |gap| + |Bytes(bytes)| + |pad|);
    TokenAfter(indent, address, gap, Bytes(bytes), pad, mnemonic + rest);
    TokenOf(mnemonic, rest);
  }

  /** The operation of an instruction line starts right after the bytes and the padding. */
  lemma OperationStartLine(indent: string, address: string, gap: string, bytes: seq<string>,
                           pad: string, mnemonic: string, rest: string)
    requires WellFormed(indent, address, gap, bytes, pad, mnemonic, rest)
    ensures OperationStart(InstructionLine(indent, address, gap, bytes, pad, mnemonic, rest))
         == Some(|indent| + |address| + 1 + |gap| + |Bytes(bytes)| + |pad|)
  {
    var tail := mnemonic + rest;
    assert In(mnemonic[0], NonSpace) && tail[0] == mnemonic[0];
    OperationStartTail(indent, address, gap, bytes, pad, tail);
  }

  lemma OperationStartTail(indent: string, address: string, gap: string, bytes: seq<string>, pad: string, tail: string)
    requires |indent| > 0 && AllIn(indent, Space) && |address| > 0 && AllIn(address, HexDigit)
    requires |gap| > 0 && AllIn(gap, Space) && |bytes| > 0 && HexWords(bytes) && |pad| > 0 && AllIn(pad, Space)
    requires |tail| > 0 && !IsSpace(tail[0])
    ensures OperationStart(indent + (address + (":" + (gap + (Bytes(bytes) + (pad + tail))))))
         == Some(|indent| + |address| + 1 + |gap| + |Bytes(bytes)| + |pad|)
  {
    BytesEndOf(gap, bytes, pad, tail);
    OperationStartOf(indent, address, gap + (Bytes(bytes) + (pad + tail)), |gap| + |Bytes(bytes)| + |pad|);
  }

  lemma GetOperationAt(line: string, e: nat)
    requires OperationStart(line) == Some(e)
    ensures e <= |line| && GetOperation(line) == Some(Token(line, e))
  {
  }

  /** The token after the bytes of an instruction line is the token its tail starts with. */
  lemma TokenAfter(indent: string, address: string, gap: string, bs: string, pad: string, tail: string)
    ensures Token(indent + (address + (":" + (gap + (bs + (pad + tail))))), |indent| + |address| + 1 + |gap| + |bs| + |pad|)
         == Token(tail, 0)
  {
    TokenAfterBytes(gap, bs, pad, tail);
    TokenAfterColon(indent, address, ":", gap + (bs + (pad + tail)), |gap| + |bs| + |pad|);
  }

  lemma TokenAfterBytes(gap: string, bs: string, pad: string, tail: string)
    ensures Token(gap + (bs + (pad + tail)), |gap| + |bs| + |pad|) == Token(tail, 0)
  {
    var r5 := pad + tail;
    var r4 := bs + r5;
    TokenShift(pad, tail, 0);
    assert Token(r5, |pad|) == Token(tail, 0);
    TokenShift(bs, r5, |pad|);
    assert Token(r4, |bs| + |pad|) == Token(tail, 0);
    TokenShift(gap, r4, |bs| + |pad|);
  }

  lemma TokenAfterColon(indent: string, address: string, colon: string, t: string, i: nat)
    requires i <= |t|
    ensures Token(indent + (address + (colon + t)), |indent| + |address| + |colon| + i) == Token(t, i)
  {
    var r2 := colon + t;
    var r1 := address + r2;
    TokenShift(colon, t, i);
    assert Token(r2, |colon| + i) == Token(t, i);
    TokenShift(address, r2, |colon| + i);
    assert Token(r1, |address| + |colon| + i) == Token(t, i);
    TokenShift(indent, r1, |address| + |colon| + i);
  }

  /** The address and colon of an indented line are skipped, and what follows decides. */
  lemma OperationStartOf(indent: string, address: string, t: string, e: nat)
    requires |indent| > 0 && AllIn(indent, Space)
    requires |address| > 0 && AllIn(address, HexDigit)
    requires BytesEnd(t, 0) == Some(e)
    ensures OperationStart(indent + (address + (":" + t))) == Some(|indent| + |address| + 1 + e)
  {
    var r2 := ":" + t;
    var r1 := address + r2;
    var line := indent + r1;
    assert In(address[0], HexDigit) && r1[0] == address[0];
    SkipPrefix(indent, r1, Space);
    assert r2[0] == ':';
    SkipPrefix(address, r2, HexDigit);
    SkipShift(indent, r1, 0, HexDigit);
    assert line[|indent| + |address|] == ':';
    BytesEndAfter(indent, address, t, e);
    OperationStartAt(line, |indent|, |indent| + |address|, |indent| + |address| + 1 + e);
  }

  lemma BytesEndAfter(indent: string, address: string, t: string, e: nat)
    requires BytesEnd(t, 0) == Some(e)
    ensures BytesEnd(indent + (address + (":" + t)), |indent| + |address| + 1) == Some(|indent| + |address| + 1 + e)
  {
    BytesEndAfterColon(indent, address, ":", t, e);
  }

  lemma BytesEndAfterColon(indent: string, address: string, colon: string, t: string, e: nat)
    requires BytesEnd(t, 0) == Some(e)
    ensures BytesEnd(indent + (address + (colon + t)), |indent| + |address| + |colon|)
         == Some(|indent| + |address| + |colon| + e)
  {
    var p := indent + address + colon;
    assert indent + (address + (colon + t)) == p + t;
    BytesEndShiftSome(p, t, 0, e);
  }

  lemma BytesEndShiftSome(x: string, y: string, i: nat, e: nat)
    requires i <= |y| && BytesEnd(y, i) == Some(e)
    ensures BytesEnd(x + y, |x| + i) == Some(|x| + e)
  {
    BytesEndShift(x, y, i);
  }

  /** The steps of `OperationStart` on a line whose runs are known. */
  lemma OperationStartAt(line: string, a: nat, b: nat, e: nat)
    requires 0 < a < b < |line|
    requires Skip(line, 0, Space) == a && Skip(line, a, HexDigit) == b && line[b] == ':'
    requires BytesEnd(line, b + 1) == Some(e)
    ensures OperationStart(line) == Some(e)
  {
  }

  /** A mnemonic followed by nothing or by white space is the token at its start. */
  lemma TokenOf(mnemonic: string, rest: string)
    requires |mnemonic| > 0 && AllIn(mnemonic, NonSpace)
    requires rest == "" || IsSpace(rest[0])
    ensures Token(mnemonic + rest, 0) == mnemonic
  {
    var tail := mnemonic + rest;
    assert forall m :: 0 <= m < |mnemonic| ==> tail[m] == mnemonic[m];
    if rest != "" {
      assert tail[|mnemonic|] == rest[0];
    }
    SkipIs(tail, 0, |mnemonic|, NonSpace);
    assert tail[..|mnemonic|] == mnemonic;
  }

  /** A line that does not start with white space has no mnemonic. */
  lemma GetOperationNone(line: string)
    requires |line| == 0 || !IsSpace(line[0])
    ensures GetOperation(line) == None
  {
    if |line| > 0 {
      SkipIs(line, 0, 0, Space);
    }
  }

  lemma GetOperationExample()
    ensures GetOperation(InstructionLine("  ", "4004aa", "\t", ["48", "83", "ec", "10"], "   \t", "sub", "    $0x10,%rsp"))
         == Some("sub")
  {
    var bytes := ["48", "83", "ec", "10"];
    assert HexWords(bytes) by {
      assert AllIn(bytes[0], HexDigit) && AllIn(bytes[1], HexDigit);
      assert AllIn(bytes[2], HexDigit) && AllIn(bytes[3], HexDigit);
    }
    GetOperationOf("  ", "4004aa", "\t", bytes, "   \t", "sub", "    $0x10,%rsp");
  }
}
