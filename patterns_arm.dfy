/**
 * The decoders of the ARM (A32/T32) and AArch64 patterns: call targets,
 * the register count of a `push {…}`, and the immediate of a stack
 * allocation. Which grammar an ARM line matches is not modelled here (see
 * the instruction categories).
 */
module ArmPatterns {
  import opened Wrappers
  import opened Text
  import opened Numbers

  // ---------------------------------------------------------------------
  // `get_function_call`

  /**
   * The name is the text between the first `<` and the next `>`; the
   * address is the last word before the first ` <`, read as hexadecimal.
   */
  function GetFunctionCall(line: string): (r: Result<(int, string)>)
    ensures r.Err? ==> r.error in {IndexError, ValueError}
  {
    var parts := Split(line, '<');
    if |parts| < 2 then Err(IndexError)
    else
      var name := Split(parts[1], '>')[0];
      match ParseInt(Last(Words(Before(line, " <"))), Hexadecimal)
      case Err(e) => Err(e)
      case Ok(address) => Ok((address, name))
  }

  /** The name is missing exactly when the line has no `<`. */
  lemma GetFunctionCallIndexError(line: string)
    ensures GetFunctionCall(line) == Err(IndexError) <==> '<' !in line
  {
    SplitCount(line, '<');
    if '<' in line {
      CountPresent(line, '<');
    } else {
      CountAbsent(line, '<');
    }
  }

  /** ` <` first occurs where the text before it, free of `<`, ends. */
  lemma BeforeCallee(front: string, rest: string)
    requires '<' !in front
    ensures Before(front + (" <" + rest), " <") == front
  {
    var line := front + (" <" + rest);
    assert StartsAt(line, |front|, " <") by {
      assert line[|front|..|front| + 2] == " <";
    }
    forall j | 0 <= j < |front| ensures !StartsAt(line, j, " <") {
      assert line[j + 1] == if j + 1 < |front| then front[j + 1] else ' ';
      assert |line| >= j + 2 && line[j..j + 2][1] == line[j + 1];
    }
    assert line[..|front|] == front;
  }

  /** The name between the first `<` and the next `>`. */
  lemma CalleeName(front: string, name: string, rest: string)
    requires '<' !in front && '<' !in name && '>' !in name
    ensures |Split(front + (" <" + (name + (">" + rest))), '<')| >= 2
    ensures Split(Split(front + (" <" + (name + (">" + rest))), '<')[1], '>')[0] == name
  {
    var after := name + (">" + rest);
    assert front + (" <" + after) == (front + " ") + ['<'] + after;
    SplitSecond(front + " ", '<', after);
    SplitHead(name, ">" + rest, '<');
    var x := Split(">" + rest, '<')[0];
    SplitHeadStarts(">" + rest, '<');
    SplitHead(name, x, '>');
    SplitHeadEmpty(x, '>');
    assert name + "" == name;
  }

  /** The last word of text that ends in a blank and a hexadecimal number. */
  lemma LastWordHex(lead: string, hex: string)
    requires |lead| > 0 && IsBlank(Last(lead))
    requires |hex| > 0 && AllIn(hex, HexDigit)
    ensures Last(Words(lead + hex)) == hex
  {
    assert ' ' !in hex && '\t' !in hex && NoDoubleSpace(hex) by {
      forall i | 0 <= i < |hex| ensures hex[i] != ' ' && hex[i] != '\t' {
        assert In(hex[i], HexDigit);
      }
    }
    WordsAfterBlank(lead, hex);
    SplitFree(hex, ' ');
  }

  /**
   * A call line: text ending in a blank, the target address in hexadecimal,
   * ` <`, the name and `>`, then anything, decodes to that address and name.
   */
  lemma GetFunctionCallOf(lead: string, hex: string, name: string, rest: string)
    requires |lead| > 0 && IsBlank(Last(lead)) && '<' !in lead
    requires |hex| > 0 && AllIn(hex, HexDigit)
    requires '<' !in name && '>' !in name
    ensures GetFunctionCall(lead + hex + (" <" + (name + (">" + rest)))) == Ok((HexValue(hex), name))
  {
    var front := lead + hex;
    assert '<' !in hex by {
      forall i | 0 <= i < |hex| ensures hex[i] != '<' {
        assert In(hex[i], HexDigit);
      }
    }
    CalleeName(front, name, rest);
    BeforeCallee(front, name + (">" + rest));
    LastWordHex(lead, hex);
    ParseHexDigits(hex);
  }

  // ---------------------------------------------------------------------
  // `get_stack_push_count` and `get_stack_push_size`

  /** One more than the number of commas inside the last `{…}`. */
  function PushCount(line: string): (n: nat)
    ensures n >= 1
  {
    Count(Split(Last(Split(line, '{')), '}')[0], ',') + 1
  }

  /** Four bytes per register pushed by a 32-bit ARM `push`. */
  function PushSize(line: string): (n: nat)
    ensures n >= 4 && n % 4 == 0
  {
    4 * PushCount(line)
  }

  /** Pieces joined by commas hold one comma fewer than there are pieces. */
  lemma CountJoin(regs: seq<string>)
    requires |regs| >= 1 && forall i :: 0 <= i < |regs| ==> ',' !in regs[i]
    ensures Count(Join(regs, ","), ',') == |regs| - 1
  {
    SplitJoin(regs, ',');
    SplitCount(Join(regs, ","), ',');
  }

  /** A register list `{r1,r2,…}` after the last `{` counts its registers. */
  lemma PushCountOf(pre: string, regs: seq<string>, post: string)
    requires |regs| >= 1
    requires forall i :: 0 <= i < |regs| ==> ',' !in regs[i] && '{' !in regs[i] && '}' !in regs[i]
    requires '{' !in post
    ensures PushCount(pre + "{" + (Join(regs, ",") + ("}" + post))) == |regs|
  {
    var list := Join(regs, ",");
    var inner := list + ("}" + post);
    JoinFree(regs, ",", '{');
    JoinFree(regs, ",", '}');
    assert '{' !in inner;
    SplitLast(pre, '{', inner);
    SplitHead(list, "}" + post, '}');
    SplitHeadEmpty("}" + post, '}');
    assert list + "" == list;
    CountJoin(regs);
  }

  /** `push {fp, lr}` pushes two registers, eight bytes. */
  lemma PushSizeExample()
    ensures PushSize("push" + "\t" + "{" + (Join(["fp", " lr"], ",") + ("}" + ""))) == 8
  {
    var regs := ["fp", " lr"];
    assert forall i :: 0 <= i < |regs| ==> ',' !in regs[i] && '{' !in regs[i] && '}' !in regs[i];
    PushCountOf("push" + "\t", regs, "");
  }

  // ---------------------------------------------------------------------
  // `get_stack_sub_size`

  /** The text up to the first line break, tab or blank. */
  function FirstField(t: string): string {
    Split(Split(Split(t, '\n')[0], '\t')[0], ' ')[0]
  }

  /** One leading `-` dropped. */
  function Unsigned(t: string): string
    requires |t| > 0
  {
    if t[0] == '-' then t[1..] else t
  }

  /**
   * The text after the last `#`, up to a line break, tab or blank, without
   * one leading `-`; indexing its first character fails when it is empty.
   */
  function SubText(line: string): (r: Result<string>)
    ensures r.Err? ==> r.error == IndexError
  {
    var t := FirstField(Last(Split(line, '#')));
    if |t| == 0 then Err(IndexError) else Ok(Unsigned(t))
  }

  /** AArch64: the text after the last `#` up to the first `]`, without one leading `-`. */
  function AArch64SubText(line: string): (r: Result<string>)
    ensures r.Err? ==> r.error == IndexError
  {
    var t := Split(Last(Split(line, '#')), ']')[0];
    if |t| == 0 then Err(IndexError) else Ok(Unsigned(t))
  }

  predicate Separator(c: char) {
    c == '\n' || c == '\t' || c == ' '
  }

  lemma FieldConcat(a: string, b: string)
    requires '\n' !in a && '\t' !in a && ' ' !in a
    ensures FirstField(a + b) == a + FirstField(b)
  {
    SplitHead(a, b, '\n');
    var b1 := Split(b, '\n')[0];
    SplitHead(a, b1, '\t');
    var b2 := Split(b1, '\t')[0];
    SplitHead(a, b2, ' ');
  }

  lemma FieldEnd(post: string)
    requires |post| == 0 || Separator(post[0])
    ensures FirstField(post) == ""
  {
    var b1 := Split(post, '\n')[0];
    if |post| > 0 && post[0] != '\n' {
      SplitHeadStarts(post, '\n');
    } else {
      SplitHeadEmpty(post, '\n');
    }
    var b2 := Split(b1, '\t')[0];
    if |b1| > 0 && b1[0] != '\t' {
      SplitHeadStarts(b1, '\t');
    } else {
      SplitHeadEmpty(b1, '\t');
    }
    SplitHeadEmpty(b2, ' ');
  }

  /** `#`, an optional `-`, the amount, then a separator or the end, gives the amount. */
  lemma SubTextOf(pre: string, negative: bool, amount: string, post: string)
    requires |amount| > 0 && amount[0] != '-'
    requires forall i :: 0 <= i < |amount| ==> !Separator(amount[i]) && amount[i] != '#'
    requires '#' !in post && (|post| == 0 || Separator(post[0]))
    ensures SubText(pre + "#" + ((if negative then "-" else "") + amount + post)) == Ok(amount)
  {
    var value := (if negative then "-" else "") + amount;
    assert forall i :: 0 <= i < |value| ==> !Separator(value[i]) && value[i] != '#' by {
      forall i | 0 <= i < |value| ensures !Separator(value[i]) && value[i] != '#' {
        if negative && i > 0 {
          assert value[i] == amount[i - 1];
        }
      }
    }
    assert '#' !in value + post;
    SplitLast(pre, '#', value + post);
    FieldConcat(value, post);
    FieldEnd(post);
    assert value + "" == value;
    if negative {
      assert value[1..] == amount;
    } else {
      assert value == amount;
    }
  }

  /** `sub sp, sp, #28` allocates `28`. */
  lemma SubTextExample()
    ensures SubText("sub" + "   " + "sp, sp, " + "#" + ("" + "28" + "")) == Ok("28")
  {
    SubTextOf("sub" + "   " + "sp, sp, ", false, "28", "");
  }

  /** `add sp, sp, #-28` allocates `28` too. */
  lemma AddTextExample()
    ensures SubText("add" + "   " + "sp, sp, " + "#" + ("-" + "28" + "")) == Ok("28")
  {
    SubTextOf("add" + "   " + "sp, sp, ", true, "28", "");
  }

  /** Nothing after the last `#` is an error. */
  lemma SubTextEmpty(pre: string)
    ensures SubText(pre + "#" + "") == Err(IndexError)
    ensures AArch64SubText(pre + "#" + "") == Err(IndexError)
  {
    SplitLast(pre, '#', "");
    FieldEnd("");
  }

  /** AArch64: `#`, an optional `-`, the amount and `]` gives the amount. */
  lemma AArch64SubTextOf(pre: string, negative: bool, amount: string, post: string)
    requires |amount| > 0 && amount[0] != '-' && ']' !in amount && '#' !in amount && '#' !in post
    ensures AArch64SubText(pre + "#" + ((if negative then "-" else "") + amount + ("]" + post))) == Ok(amount)
  {
    var value := (if negative then "-" else "") + amount;
    assert forall i :: 0 <= i < |value| ==> value[i] != ']' && value[i] != '#' by {
      forall i | 0 <= i < |value| ensures value[i] != ']' && value[i] != '#' {
        if negative && i > 0 {
          assert value[i] == amount[i - 1];
        }
      }
    }
    assert value + ("]" + post) == (if negative then "-" else "") + amount + ("]" + post);
    assert '#' !in value + ("]" + post);
    SplitLast(pre, '#', value + ("]" + post));
    SplitHead(value, "]" + post, ']');
    SplitHeadEmpty("]" + post, ']');
    assert value + "" == value;
    if negative {
      assert value[1..] == amount;
    } else {
      assert value == amount;
    }
  }

  /** `stp x29, x30, [sp,#-64]!` allocates `64`. */
  lemma AArch64SubTextExample()
    ensures AArch64SubText("stp" + "   " + "x29, x30, [sp," + "#" + ("-" + "64" + ("]" + "!"))) == Ok("64")
  {
    AArch64SubTextOf("stp" + "   " + "x29, x30, [sp,", true, "64", "!");
  }
}
