/**
 * The patterns the analyser selects for an architecture, seen from the
 * line loop of `parse`: the branch of its cascade an instruction line
 * takes, and the extractors (push size, sub immediate, call target) of the
 * selected patterns.
 *
 * Which x86 grammar a line matches is decided by the recognisers of
 * `X86Patterns`. The ARM and AArch64 grammars are not modelled: the branch
 * an ARM line takes is given by a classifier the analysis receives.
 */
module Instructions {
  import opened Wrappers
  import opened Text
  import opened Architecture
  import X86Patterns
  import ArmPatterns

  /** The branch of the analyser's cascade a line takes, in the order the cascade tries them. */
  datatype Category = Push | Sub | Dynamic | Call | Pointer | Potential | Other

  /**
   * The categories the patterns of `a` can produce: only x86 has a
   * dynamic-stack grammar, and only the package's x86 patterns have a
   * potential-stack grammar (the older script has no such branch).
   */
  predicate Producible(a: Arch, v: Variant, c: Category) {
    && (c == Dynamic ==> a == X86 || a == X86_64)
    && (c == Potential ==> (a == X86 || a == X86_64) && v == Package)
  }

  /** A classifier of ARM lines that never answers a branch the ARM patterns do not have. */
  ghost predicate ArmClassifier(v: Variant, classify: string -> Category) {
    forall line :: Producible(Arm, v, classify(line))
  }

  /** The x86 cascade: push, sub, dynamic, call, pointer, then (package only) potential. */
  function X86Category(a: Arch, v: Variant, line: string): Category
    requires a == X86 || a == X86_64
  {
    if v == Package then
      if X86Patterns.IsPush(a, line) then Push
      else if X86Patterns.IsSub(line) then Sub
      else if X86Patterns.IsDynamic(line) then Dynamic
      else if X86Patterns.IsCall(line) then Call
      else if X86Patterns.IsPointer(line) then Pointer
      else if X86Patterns.IsPotential(line) then Potential
      else Other
    else
      if X86Patterns.IsLegacyPush(a, line) then Push
      else if X86Patterns.IsLegacySub(line) then Sub
      else if X86Patterns.IsLegacyDynamic(line) then Dynamic
      else if X86Patterns.IsLegacyCall(line) then Call
      else if X86Patterns.IsLegacyPointer(line) then Pointer
      else Other
  }

  /** The branch an instruction line takes: the x86 recognisers, or the ARM classifier. */
  function Categorise(a: Arch, v: Variant, classify: string -> Category, line: string): Category {
    if a == X86 || a == X86_64 then X86Category(a, v, line) else classify(line)
  }

  /** Whatever the line, the cascade only takes branches the selected patterns have. */
  lemma CategoriseProducible(a: Arch, v: Variant, classify: string -> Category, line: string)
    requires ArmClassifier(v, classify)
    ensures Producible(a, v, Categorise(a, v, classify, line))
  {
    if a == Arm || a == AArch64 {
      assert Producible(Arm, v, classify(line));
    }
  }

  // ---------------------------------------------------------------------
  // Facts about the x86 grammars that decide between the branches

  /** `push` holds an `h`. */
  lemma PushNeedsH(a: Arch, line: string)
    requires X86Patterns.IsPush(a, line)
    ensures 'h' in line
  {
    var p :| 0 <= p <= |line| && X86Patterns.SpaceBefore(line, p) && X86Patterns.PushAt(line, p, X86Patterns.SizeLetter(a));
    assert line[p + 3] == line[p..p + 4][3];
  }

  /** A stack allocation by an immediate has a `$`. */
  lemma SubNeedsDollar(line: string)
    requires X86Patterns.IsSub(line)
    ensures '$' in line
  {
    var p :| 0 <= p <= |line| && X86Patterns.SpaceBefore(line, p) && X86Patterns.SubAt(line, p);
    var t := line[p + 3..];
    var u := X86Patterns.AfterSpace(t).value;
    assert StartsAt(u, 0, "$0x");
    assert u[0] == u[0..3][0] == '$';
    var a := Skip(t, 0, Space);
    assert line[p + 3 + a] == u[0];
  }

  lemma AbsentConcat(c: char, x: string, y: string)
    requires c !in x && c !in y
    ensures c !in x + y
  {
  }

  lemma NoHInStackPointer(sp: string)
    requires X86Patterns.StackPointer(sp)
    ensures 'h' !in sp && '$' !in sp
  {
  }

  /** Sub and dynamic lines end in `p`. */
  lemma StackOpEnd(line: string)
    requires X86Patterns.IsSub(line) || X86Patterns.IsDynamic(line)
    ensures |line| > 0 && line[|line| - 1] == 'p'
  {
    if X86Patterns.IsSub(line) {
      X86Patterns.SubNeeds(line);
    } else {
      X86Patterns.DynamicNeeds(line);
    }
    assert line[|line| - 1] == line[|line| - 2..][1];
  }

  /** Call lines end in `>`. */
  lemma CallEnd(line: string)
    requires X86Patterns.IsCall(line)
    ensures |line| > 0 && line[|line| - 1] == '>'
  {
    X86Patterns.CallNeeds(line);
    assert line[|line| - 1] == line[|line| - 1..][0];
  }

  /** A call line without `h` takes the call branch. */
  lemma CategoryCall(a: Arch, pre: string, ws: string, hex: string, name: string)
    requires a == X86 || a == X86_64
    requires |pre| > 0 && IsSpace(pre[|pre| - 1])
    requires |ws| > 0 && AllIn(ws, Space)
    requires |hex| > 0 && AllIn(hex, HexDigit)
    requires 'h' !in pre && 'h' !in ws && 'h' !in hex && 'h' !in name
    ensures X86Category(a, Package, pre + ("callq" + (ws + (hex + (" <" + name + ">"))))) == Call
  {
    var line := pre + ("callq" + (ws + (hex + (" <" + name + ">"))));
    X86Patterns.IsCallOf(pre, ws, hex, name);
    CallEnd(line);
    if X86Patterns.IsSub(line) || X86Patterns.IsDynamic(line) {
      StackOpEnd(line);
      assert false;
    }
    assert 'h' !in line by {
      assert 'h' !in " <" && 'h' !in ">" && 'h' !in "callq";
      AbsentConcat('h', " <", name);
      AbsentConcat('h', " <" + name, ">");
      AbsentConcat('h', hex, " <" + name + ">");
      AbsentConcat('h', ws, hex + (" <" + name + ">"));
      AbsentConcat('h', "callq", ws + (hex + (" <" + name + ">")));
      AbsentConcat('h', pre, "callq" + (ws + (hex + (" <" + name + ">"))));
    }
    if X86Patterns.IsPush(a, line) {
      PushNeedsH(a, line);
      assert false;
    }
  }

  /** A stack allocation by an immediate, without `h`, takes the sub branch. */
  lemma CategorySub(a: Arch, pre: string, ws: string, hex: string, ws2: string, sp: string)
    requires a == X86 || a == X86_64
    requires |pre| > 0 && IsSpace(pre[|pre| - 1])
    requires |ws| > 0 && AllIn(ws, Space) && AllIn(hex, HexDigit) && AllIn(ws2, Space)
    requires X86Patterns.StackPointer(sp)
    requires 'h' !in pre && 'h' !in ws && 'h' !in hex && 'h' !in ws2
    ensures X86Category(a, Package, pre + ("sub" + (ws + ("$0x" + (hex + ("," + (ws2 + sp))))))) == Sub
  {
    var line := pre + ("sub" + (ws + ("$0x" + (hex + ("," + (ws2 + sp))))));
    X86Patterns.IsSubOf(pre, ws, hex, ws2, sp);
    NoHInStackPointer(sp);
    assert 'h' !in line by {
      assert 'h' !in "sub" && 'h' !in "$0x" && 'h' !in ",";
      AbsentConcat('h', ws2, sp);
      AbsentConcat('h', ",", ws2 + sp);
      AbsentConcat('h', hex, "," + (ws2 + sp));
      AbsentConcat('h', "$0x", hex + ("," + (ws2 + sp)));
      AbsentConcat('h', ws, "$0x" + (hex + ("," + (ws2 + sp))));
      AbsentConcat('h', "sub", ws + ("$0x" + (hex + ("," + (ws2 + sp)))));
      AbsentConcat('h', pre, "sub" + (ws + ("$0x" + (hex + ("," + (ws2 + sp))))));
    }
    if X86Patterns.IsPush(a, line) {
      PushNeedsH(a, line);
      assert false;
    }
    SubBranch(a, line);
  }

  lemma SubBranch(a: Arch, line: string)
    requires a == X86 || a == X86_64
    requires X86Patterns.IsSub(line) && !X86Patterns.IsPush(a, line)
    ensures X86Category(a, Package, line) == Sub
  {
  }

  /** A dynamic allocation, without `h` and `$`, takes the dynamic branch. */
  lemma CategoryDynamic(a: Arch, pre: string, ws: string, register: string, ws2: string, sp: string)
    requires a == X86 || a == X86_64
    requires |pre| > 0 && IsSpace(pre[|pre| - 1])
    requires |ws| > 0 && AllIn(ws, Space) && AllIn(ws2, Space)
    requires X86Patterns.StackPointer(sp)
    requires 'h' !in pre && 'h' !in ws && 'h' !in register && 'h' !in ws2
    requires '$' !in pre && '$' !in ws && '$' !in register && '$' !in ws2
    ensures X86Category(a, Package, pre + ("sub" + (ws + ("%" + (register + ("," + (ws2 + sp))))))) == Dynamic
  {
    var line := pre + ("sub" + (ws + ("%" + (register + ("," + (ws2 + sp))))));
    X86Patterns.IsDynamicOf(pre, ws, register, ws2, sp);
    NoHInStackPointer(sp);
    DynamicAbsent('h', pre, ws, register, ws2, sp);
    DynamicAbsent('$', pre, ws, register, ws2, sp);
    if X86Patterns.IsPush(a, line) {
      PushNeedsH(a, line);
      assert false;
    }
    if X86Patterns.IsSub(line) {
      SubNeedsDollar(line);
      assert false;
    }
    DynamicBranch(a, line);
  }

  lemma DynamicAbsent(c: char, pre: string, ws: string, register: string, ws2: string, sp: string)
    requires c !in "sub" && c !in "%" && c !in ","
    requires c !in pre && c !in ws && c !in register && c !in ws2 && c !in sp
    ensures c !in pre + ("sub" + (ws + ("%" + (register + ("," + (ws2 + sp))))))
  {
    AbsentConcat(c, ws2, sp);
    AbsentConcat(c, ",", ws2 + sp);
    AbsentConcat(c, register, "," + (ws2 + sp));
    AbsentConcat(c, "%", register + ("," + (ws2 + sp)));
    AbsentConcat(c, ws, "%" + (register + ("," + (ws2 + sp))));
    AbsentConcat(c, "sub", ws + ("%" + (register + ("," + (ws2 + sp)))));
    AbsentConcat(c, pre, "sub" + (ws + ("%" + (register + ("," + (ws2 + sp))))));
  }

  lemma DynamicBranch(a: Arch, line: string)
    requires a == X86 || a == X86_64
    requires X86Patterns.IsDynamic(line) && !X86Patterns.IsSub(line) && !X86Patterns.IsPush(a, line)
    ensures X86Category(a, Package, line) == Dynamic
  {
  }

  /** A call through a register, without `h`, whose operand ends in neither `>` nor `p`, takes the pointer branch. */
  lemma CategoryPointer(a: Arch, pre: string, ws: string, operand: string)
    requires a == X86 || a == X86_64
    requires |pre| > 0 && IsSpace(pre[|pre| - 1])
    requires |ws| > 0 && AllIn(ws, Space) && |operand| > 0 && !IsSpace(operand[0]) && '%' in operand
    requires operand[|operand| - 1] != '>' && operand[|operand| - 1] != 'p'
    requires 'h' !in pre && 'h' !in ws && 'h' !in operand
    ensures X86Category(a, Package, pre + ("callq" + (ws + operand))) == Pointer
  {
    var line := pre + ("callq" + (ws + operand));
    X86Patterns.IsPointerOf(pre, ws, operand);
    assert line[|line| - 1] == operand[|operand| - 1];
    if X86Patterns.IsPush(a, line) {
      PushNeedsH(a, line);
      assert false;
    }
    if X86Patterns.IsSub(line) || X86Patterns.IsDynamic(line) {
      StackOpEnd(line);
      assert false;
    }
    if X86Patterns.IsCall(line) {
      CallEnd(line);
      assert false;
    }
  }

  // ---------------------------------------------------------------------
  // The extractors of the selected patterns

  /**
   * `get_stack_push_size`: on x86 the package reads the register width
   * and the older script a constant word; ARM pushes four bytes a
   * register; AArch64 has no push, which the package reports as an error
   * and the older script counts as eight bytes a register.
   */
  function PushSize(a: Arch, v: Variant, line: string): Result<int> {
    match a
    case X86 => Ok(if v == Package then X86Patterns.PushSize(a, line) else X86Patterns.LegacyPushSize(a))
    case X86_64 => Ok(if v == Package then X86Patterns.PushSize(a, line) else X86Patterns.LegacyPushSize(a))
    case Arm => Ok(ArmPatterns.PushSize(line))
    case AArch64 => if v == Package then Err(RuntimeError) else Ok(8 * ArmPatterns.PushCount(line))
  }

  /** `get_stack_sub_size`: the immediate's text, the same in both generations. */
  function SubText(a: Arch, line: string): (r: Result<string>)
    ensures r.Err? ==> r.error == IndexError && (a == Arm || a == AArch64)
  {
    match a
    case X86 => Ok(X86Patterns.GetStackSubSize(line))
    case X86_64 => Ok(X86Patterns.GetStackSubSize(line))
    case Arm => ArmPatterns.SubText(line)
    case AArch64 => ArmPatterns.AArch64SubText(line)
  }

  /** `get_function_call`: x86 reads the last two words, ARM the text around ` <`. */
  function CallTarget(a: Arch, line: string): (r: Result<(int, string)>)
    ensures r.Err? ==> r.error in {IndexError, ValueError}
  {
    if a == X86 || a == X86_64 then X86Patterns.GetFunctionCall(line) else ArmPatterns.GetFunctionCall(line)
  }

  /**
   * What a push adds to the stack: a register width (1, 2, 4 or 8 bytes)
   * on x86 in the package, the word on x86 in the older script, a positive
   * multiple of the register size on ARM; only the package's AArch64
   * patterns fail, with a `RuntimeError`.
   */
  lemma PushSizeRange(a: Arch, v: Variant, line: string)
    ensures PushSize(a, v, line).Err? <==> a == AArch64 && v == Package
    ensures PushSize(a, v, line).Err? ==> PushSize(a, v, line).error == RuntimeError
    ensures PushSize(a, v, line).Ok? ==> PushSize(a, v, line).value > 0
    ensures (a == X86 || a == X86_64) && v == Package ==> PushSize(a, v, line).value in {1, 2, 4, 8}
    ensures (a == X86 || a == X86_64) && v == Legacy ==> PushSize(a, v, line).value == (if a == X86 then 4 else 8)
    ensures a == Arm ==> PushSize(a, v, line).value % 4 == 0
    ensures a == AArch64 && v == Legacy ==> PushSize(a, v, line).value % 8 == 0
    ensures a == Arm || (a == AArch64 && v == Legacy) ==>
      PushSize(a, v, line).value == (if a == Arm then 4 else 8) * ArmPatterns.PushCount(line)
  {
  }

  /** On x86-64 a constant push is eight bytes and a register push its width, as on x86. */
  lemma PushSizeX86_64(prefix: string, w: nat, i: nat, line: string)
    requires |prefix| > 0 && IsBlank(prefix[|prefix| - 1])
    requires w in {1, 2, 4, 8} && i < |X86Patterns.TableOf(w)|
    requires '%' !in line
    ensures PushSize(X86_64, Package, prefix + "%" + X86Patterns.TableOf(w)[i]) == Ok(w)
    ensures PushSize(X86, Package, prefix + "%" + X86Patterns.TableOf(w)[i]) == Ok(w)
    ensures PushSize(X86_64, Package, line) == Ok(8) && PushSize(X86, Package, line) == Ok(4)
  {
    X86Patterns.PushSizeOf(X86_64, prefix, w, i);
    X86Patterns.PushSizeOf(X86, prefix, w, i);
    X86Patterns.PushSizeConstant(X86_64, line);
    X86Patterns.PushSizeConstant(X86, line);
  }
}
