/**
 * The Python `str` operations the disassembly parser relies on:
 * character classes of the regular expressions, `split`, `join`,
 * `replace`, `count`, `lower`, substring tests and slices with
 * Python's clamping.
 */
module Text {

  /** The character classes the patterns use. */
  datatype CharClass = Space | NonSpace | Blank | SpaceChar | BlankOrHex | HexDigit | Digit | Lower

  /**
   * Python's `str.isspace`, which is also the set `\s` matches in a
   * pattern over `str`: the ASCII controls 9-13 and 28-31, the space and
   * the Unicode separators.
   */
  predicate IsSpace(c: char) {
    c == ' ' || ('\t' <= c <= '\r') || ('\U{1c}' <= c <= '\U{1f}')
    || c == '\U{85}' || c == '\U{a0}' || c == '\U{1680}'
    || ('\U{2000}' <= c <= '\U{200a}') || c == '\U{2028}' || c == '\U{2029}'
    || c == '\U{202f}' || c == '\U{205f}' || c == '\U{3000}'
  }

  /** `( |\t)` */
  predicate IsBlank(c: char) { c == ' ' || c == '\t' }

  /** `[0-9a-f]` */
  predicate IsHexDigit(c: char) { ('0' <= c <= '9') || ('a' <= c <= 'f') }

  /** `[0-9]` */
  predicate IsDigit(c: char) { '0' <= c <= '9' }

  /** `[a-z]` */
  predicate IsLower(c: char) { 'a' <= c <= 'z' }

  predicate In(c: char, k: CharClass) {
    match k
    case Space => IsSpace(c)
    case NonSpace => !IsSpace(c)
    case Blank => IsBlank(c)
    case SpaceChar => c == ' '
    case BlankOrHex => IsBlank(c) || IsHexDigit(c)
    case HexDigit => IsHexDigit(c)
    case Digit => IsDigit(c)
    case Lower => IsLower(c)
  }

  predicate AllIn(s: string, k: CharClass) {
    forall i :: 0 <= i < |s| ==> In(s[i], k)
  }

  /** The end of the longest run of class `k` that starts at `i` (a greedy `k*`). */
  function Skip(s: string, i: nat, k: CharClass): (j: nat)
    requires i <= |s|
    ensures i <= j <= |s|
    ensures forall m :: i <= m < j ==> In(s[m], k)
    ensures j == |s| || !In(s[j], k)
    decreases |s| - i
  {
    if i < |s| && In(s[i], k) then Skip(s, i + 1, k) else i
  }

  /** A run of class `k` from `i` to `j` that cannot be extended is what `Skip` finds. */
  lemma SkipIs(s: string, i: nat, j: nat, k: CharClass)
    requires i <= j <= |s|
    requires forall m :: i <= m < j ==> In(s[m], k)
    requires j == |s| || !In(s[j], k)
    ensures Skip(s, i, k) == j
  {
  }

  /** A run in the second part of a concatenation ends where it ends in that part. */
  lemma SkipShift(a: string, b: string, i: nat, k: CharClass)
    requires i <= |b|
    ensures Skip(a + b, |a| + i, k) == |a| + Skip(b, i, k)
  {
    var s := a + b;
    var j := Skip(b, i, k);
    assert forall m :: |a| + i <= m < |a| + j ==> s[m] == b[m - |a|];
    SkipIs(s, |a| + i, |a| + j, k);
  }

  /** A run of class `k` that fills a prefix and is not continued ends where the prefix ends. */
  lemma SkipPrefix(p: string, r: string, k: CharClass)
    requires AllIn(p, k)
    requires |r| == 0 || !In(r[0], k)
    ensures Skip(p + r, 0, k) == |p|
  {
    var s := p + r;
    assert forall m :: 0 <= m < |p| ==> s[m] == p[m];
    if |r| > 0 {
      assert s[|p|] == r[0];
    }
    SkipIs(s, 0, |p|, k);
  }

  /** `lit` occurs in `s` at position `i`. */
  predicate StartsAt(s: string, i: nat, lit: string) {
    i + |lit| <= |s| && s[i..i + |lit|] == lit
  }

  lemma StartsAtShift(a: string, b: string, i: nat, lit: string)
    ensures StartsAt(a + b, |a| + i, lit) <==> StartsAt(b, i, lit)
  {
    if StartsAt(b, i, lit) {
      assert (a + b)[|a| + i..|a| + i + |lit|] == b[i..i + |lit|];
    }
    if StartsAt(a + b, |a| + i, lit) {
      assert (a + b)[|a| + i..|a| + i + |lit|] == b[i..i + |lit|];
    }
  }

  /** `sub in s` */
  predicate Contains(s: string, sub: string) {
    exists i | 0 <= i <= |s| :: StartsAt(s, i, sub)
  }

  /** The first position of `c` in `s`, or `|s|`. */
  function FirstIndex(s: string, c: char): (i: nat)
    ensures i <= |s|
    ensures forall j :: 0 <= j < i ==> s[j] != c
    ensures i < |s| ==> s[i] == c
  {
    if |s| == 0 then 0
    else if s[0] == c then 0
    else 1 + FirstIndex(s[1..], c)
  }

  lemma FirstIndexAt(a: string, c: char, b: string)
    requires c !in a
    ensures FirstIndex(a + [c] + b, c) == |a|
  {
    var s := a + [c] + b;
    assert s[|a|] == c;
    assert forall j :: 0 <= j < |a| ==> s[j] == a[j];
  }

  lemma {:induction false} FirstIndexExtend(a: string, t: string, c: char)
    requires FirstIndex(a, c) < |a|
    ensures FirstIndex(a + t, c) == FirstIndex(a, c)
    decreases |a|
  {
    if a[0] != c {
      assert (a + t)[1..] == a[1..] + t;
      FirstIndexExtend(a[1..], t, c);
    }
  }

  lemma FirstIndexAbsent(s: string, c: char)
    requires c !in s
    ensures FirstIndex(s, c) == |s|
  {
  }

  /** `s.split(sep)` for a one-character separator. */
  function Split(s: string, sep: char): (parts: seq<string>)
    ensures |parts| >= 1
    ensures forall i :: 0 <= i < |parts| ==> sep !in parts[i]
    decreases |s|
  {
    if |s| == 0 then [""] else Cons(s[0], Split(s[1..], sep), sep)
  }

  /** The pieces of `[x] + t`, given the pieces `rest` of `t`. */
  function Cons(x: char, rest: seq<string>, sep: char): (parts: seq<string>)
    requires |rest| >= 1
    requires forall i :: 0 <= i < |rest| ==> sep !in rest[i]
    ensures |parts| >= 1
    ensures forall i :: 0 <= i < |parts| ==> sep !in parts[i]
  {
    if x == sep then [""] + rest else [[x] + rest[0]] + rest[1..]
  }

  lemma ConsAppend(x: char, r: seq<string>, q: seq<string>, sep: char)
    requires |r| >= 1
    requires forall i :: 0 <= i < |r| ==> sep !in r[i]
    requires forall i :: 0 <= i < |q| ==> sep !in q[i]
    ensures Cons(x, r + q, sep) == Cons(x, r, sep) + q
  {
    if x != sep {
      assert (r + q)[0] == r[0];
      assert (r + q)[1..] == r[1..] + q;
    }
  }

  /** `sep.join(parts)` */
  function Join(parts: seq<string>, sep: string): string
    decreases |parts|
  {
    if |parts| == 0 then ""
    else if |parts| == 1 then parts[0]
    else parts[0] + sep + Join(parts[1..], sep)
  }

  function Last<T>(s: seq<T>): T
    requires |s| > 0
  {
    s[|s| - 1]
  }

  lemma JoinConsHead(x: char, r: seq<string>, sep: string)
    requires |r| >= 1
    ensures Join([[x] + r[0]] + r[1..], sep) == [x] + Join(r, sep)
  {
    var q := [[x] + r[0]] + r[1..];
    assert q[0] == [x] + r[0];
    assert q[1..] == r[1..];
  }

  /** Joining the pieces of a split with the separator gives back the string. */
  lemma {:induction false} JoinSplit(s: string, sep: char)
    ensures Join(Split(s, sep), [sep]) == s
    decreases |s|
  {
    if |s| > 0 {
      var rest := Split(s[1..], sep);
      JoinSplit(s[1..], sep);
      if s[0] == sep {
        assert ([""] + rest)[1..] == rest;
      } else {
        JoinConsHead(s[0], rest, [sep]);
      }
      assert Split(s, sep) == Cons(s[0], rest, sep);
      assert s == [s[0]] + s[1..];
    }
  }

  lemma {:induction false} SplitFree(s: string, sep: char)
    requires sep !in s
    ensures Split(s, sep) == [s]
    decreases |s|
  {
    if |s| > 0 {
      SplitFree(s[1..], sep);
      assert s == [s[0]] + s[1..];
    }
  }

  /** Splitting a join of pieces free of the separator gives back the pieces. */
  lemma {:induction false} SplitJoin(parts: seq<string>, sep: char)
    requires |parts| >= 1
    requires forall i :: 0 <= i < |parts| ==> sep !in parts[i]
    ensures Split(Join(parts, [sep]), sep) == parts
    decreases |parts|
  {
    SplitFree(parts[0], sep);
    if |parts| > 1 {
      var tail := Join(parts[1..], [sep]);
      SplitJoin(parts[1..], sep);
      SplitConcat(parts[0], sep, tail);
      assert parts == [parts[0]] + parts[1..];
    }
  }

  /** A separator splits the pieces on either side of it independently. */
  lemma {:induction false} SplitConcat(a: string, sep: char, b: string)
    ensures Split(a + [sep] + b, sep) == Split(a, sep) + Split(b, sep)
    decreases |a|
  {
    var s := a + [sep] + b;
    if |a| == 0 {
      assert s == [sep] + b;
      assert s[1..] == b;
    } else {
      assert s[0] == a[0];
      assert s[1..] == a[1..] + [sep] + b;
      SplitConcat(a[1..], sep, b);
      ConsAppend(a[0], Split(a[1..], sep), Split(b, sep), sep);
    }
  }

  /** The number of pieces of a split is one more than the number of separators. */
  lemma {:induction false} SplitCount(s: string, sep: char)
    ensures |Split(s, sep)| == Count(s, sep) + 1
    decreases |s|
  {
    if |s| > 0 {
      SplitCount(s[1..], sep);
    }
  }

  /** The first piece of a split starts with text free of the separator. */
  lemma {:induction false} SplitHead(a: string, b: string, sep: char)
    requires sep !in a
    ensures Split(a + b, sep)[0] == a + Split(b, sep)[0]
    decreases |a|
  {
    if |a| == 0 {
      assert a + b == b;
    } else {
      var s := a + b;
      assert s[0] == a[0] && s[1..] == a[1..] + b;
      SplitHead(a[1..], b, sep);
      assert a == [a[0]] + a[1..];
    }
  }

  /** The second piece of a split, after a first piece free of the separator. */
  lemma SplitSecond(a: string, sep: char, b: string)
    requires sep !in a
    ensures |Split(a + [sep] + b, sep)| >= 2 && Split(a + [sep] + b, sep)[1] == Split(b, sep)[0]
  {
    SplitConcat(a, sep, b);
    SplitFree(a, sep);
  }

  /** The last piece of a split, after the last separator. */
  lemma SplitLast(a: string, sep: char, b: string)
    requires sep !in b
    ensures Last(Split(a + [sep] + b, sep)) == b
  {
    SplitConcat(a, sep, b);
    SplitFree(b, sep);
  }

  /** A split of text that starts with its separator, or is empty, has an empty first piece. */
  lemma SplitHeadEmpty(s: string, sep: char)
    requires |s| == 0 || s[0] == sep
    ensures Split(s, sep)[0] == ""
  {
  }

  /** Otherwise the first piece starts with the first character. */
  lemma SplitHeadStarts(s: string, sep: char)
    requires |s| > 0 && s[0] != sep
    ensures |Split(s, sep)[0]| > 0 && Split(s, sep)[0][0] == s[0]
  {
  }

  /** A join of pieces free of `c` by a separator free of `c` is free of `c`. */
  lemma {:induction false} JoinFree(parts: seq<string>, sep: string, c: char)
    requires forall i :: 0 <= i < |parts| ==> c !in parts[i]
    requires c !in sep
    ensures c !in Join(parts, sep)
    decreases |parts|
  {
    if |parts| > 1 {
      JoinFree(parts[1..], sep, c);
    }
  }

  /** `s.count(c)` for a one-character `c`. */
  function Count(s: string, c: char): nat {
    if |s| == 0 then 0 else (if s[0] == c then 1 else 0) + Count(s[1..], c)
  }

  lemma CountAbsent(s: string, c: char)
    requires c !in s
    ensures Count(s, c) == 0
  {
    if |s| > 0 {
      assert c !in s[1..];
      CountAbsent(s[1..], c);
    }
  }

  lemma {:induction false} CountPresent(s: string, c: char)
    requires c in s
    ensures Count(s, c) > 0
    decreases |s|
  {
    if s[0] != c {
      assert c in s[1..];
      CountPresent(s[1..], c);
    }
  }

  lemma {:induction false} CountConcat(a: string, b: string, c: char)
    ensures Count(a + b, c) == Count(a, c) + Count(b, c)
    decreases |a|
  {
    if |a| > 0 {
      assert (a + b)[1..] == a[1..] + b;
      CountConcat(a[1..], b, c);
    } else {
      assert a + b == b;
    }
  }

  /** The piece before the first occurrence of `sep`: `s.split(sep)[0]`. */
  function FirstOccurrence(s: string, sep: string): (i: nat)
    requires |sep| > 0
    ensures i <= |s|
    ensures i < |s| ==> StartsAt(s, i, sep)
    ensures forall j :: 0 <= j < i ==> !StartsAt(s, j, sep)
    decreases |s|
  {
    if |s| < |sep| then |s|
    else if s[..|sep|] == sep then 0
    else
      var r := 1 + FirstOccurrence(s[1..], sep);
      assert forall j :: 1 <= j <= |s| ==> (StartsAt(s, j, sep) <==> StartsAt(s[1..], j - 1, sep));
      r
  }

  function Before(s: string, sep: string): string
    requires |sep| > 0
  {
    s[..FirstOccurrence(s, sep)]
  }

  /** `s.replace(from, to)` for one-character `from` and `to`. */
  function ReplaceChar(s: string, from: char, to: char): (r: string)
    ensures |r| == |s|
    ensures forall i :: 0 <= i < |s| ==> r[i] == if s[i] == from then to else s[i]
  {
    if |s| == 0 then "" else [if s[0] == from then to else s[0]] + ReplaceChar(s[1..], from, to)
  }

  lemma ReplaceConcat(a: string, b: string, from: char, to: char)
    ensures ReplaceChar(a + b, from, to) == ReplaceChar(a, from, to) + ReplaceChar(b, from, to)
  {
    assert ReplaceChar(a + b, from, to) == ReplaceChar(a, from, to) + ReplaceChar(b, from, to);
  }

  lemma ReplaceIdle(s: string, from: char, to: char)
    requires from !in s
    ensures ReplaceChar(s, from, to) == s
  {
  }

  /** `s.replace("  ", " ")`: one left-to-right pass over non-overlapping pairs. */
  function CollapsePairs(s: string): string {
    if |s| >= 2 && s[0] == ' ' && s[1] == ' ' then " " + CollapsePairs(s[2..])
    else if |s| == 0 then ""
    else [s[0]] + CollapsePairs(s[1..])
  }

  predicate NoDoubleSpace(s: string) {
    forall i :: 0 <= i < |s| - 1 ==> !(s[i] == ' ' && s[i + 1] == ' ')
  }

  lemma {:induction false} CollapseIdle(s: string)
    requires NoDoubleSpace(s)
    ensures CollapsePairs(s) == s
    decreases |s|
  {
    if |s| > 0 {
      assert NoDoubleSpace(s[1..]) by {
        forall i | 0 <= i < |s[1..]| - 1 ensures !(s[1..][i] == ' ' && s[1..][i + 1] == ' ') {
          assert s[1..][i] == s[i + 1] && s[1..][i + 1] == s[i + 2];
        }
      }
      CollapseIdle(s[1..]);
      if |s| >= 2 {
        assert !(s[0] == ' ' && s[1] == ' ');
      }
    }
  }

  /** A pair of blanks never straddles a position that holds no blank. */
  lemma {:induction false} CollapseConcat(a: string, b: string)
    requires |b| > 0 && b[0] != ' '
    ensures CollapsePairs(a + b) == CollapsePairs(a) + CollapsePairs(b)
    decreases |a|
  {
    var s := a + b;
    if |a| == 0 {
      assert s == b;
    } else if |a| == 1 {
      assert s == [a[0]] + b && s[1] == b[0];
      assert s[1..] == b;
      assert CollapsePairs(s) == [a[0]] + CollapsePairs(b);
      assert CollapsePairs(a) == [a[0]] + CollapsePairs([]);
    } else if a[0] == ' ' && a[1] == ' ' {
      assert s[0] == ' ' && s[1] == ' ';
      assert s[2..] == a[2..] + b;
      CollapseConcat(a[2..], b);
      assert CollapsePairs(s) == " " + CollapsePairs(s[2..]);
    } else {
      assert s[0] == a[0] && s[1] == a[1];
      assert s[1..] == a[1..] + b;
      CollapseConcat(a[1..], b);
      assert CollapsePairs(s) == [s[0]] + CollapsePairs(s[1..]);
    }
  }

  /** A non-empty run of blanks stays a non-empty run of blanks. */
  lemma {:induction false} CollapseBlanks(a: string)
    requires |a| > 0 && forall i :: 0 <= i < |a| ==> a[i] == ' '
    ensures |CollapsePairs(a)| > 0
    ensures forall i :: 0 <= i < |CollapsePairs(a)| ==> CollapsePairs(a)[i] == ' '
    decreases |a|
  {
    if |a| >= 3 {
      CollapseBlanks(a[2..]);
    } else if |a| == 2 {
      assert CollapsePairs(a) == " " + CollapsePairs("");
    } else {
      assert CollapsePairs(a) == [a[0]] + CollapsePairs("");
    }
  }

  /** Collapsing never turns the last character into a blank, or a blank into something else. */
  lemma {:induction false} CollapseLast(a: string)
    requires |a| > 0
    ensures |CollapsePairs(a)| > 0
    ensures Last(CollapsePairs(a)) == Last(a)
    decreases |a|
  {
    if |a| >= 2 && a[0] == ' ' && a[1] == ' ' {
      if |a| == 2 {
        assert CollapsePairs(a) == " " + CollapsePairs("");
      } else {
        CollapseLast(a[2..]);
      }
    } else if |a| == 1 {
      assert CollapsePairs(a) == [a[0]] + CollapsePairs("");
    } else {
      CollapseLast(a[1..]);
    }
  }

  /** The words of `s` once tabs are blanks and pairs of blanks are single blanks. */
  function Words(s: string): (w: seq<string>)
    ensures |w| >= 1
  {
    Split(CollapsePairs(ReplaceChar(s, '\t', ' ')), ' ')
  }

  /** Normalising text after a blank leaves the text alone. */
  lemma NormalAfterBlank(lead: string, t: string)
    requires |lead| > 0 && IsBlank(Last(lead))
    requires |t| > 0 && t[0] != ' ' && '\t' !in t && NoDoubleSpace(t)
    ensures CollapsePairs(ReplaceChar(lead + t, '\t', ' ')) == CollapsePairs(ReplaceChar(lead, '\t', ' ')) + t
    ensures |CollapsePairs(ReplaceChar(lead, '\t', ' '))| > 0 && Last(CollapsePairs(ReplaceChar(lead, '\t', ' '))) == ' '
  {
    ReplaceConcat(lead, t, '\t', ' ');
    ReplaceIdle(t, '\t', ' ');
    var p := ReplaceChar(lead, '\t', ' ');
    assert p[|p| - 1] == ' ';
    CollapseConcat(p, t);
    CollapseIdle(t);
    CollapseLast(p);
  }

  /** Text after a blank that is already normal keeps its words, at the end. */
  lemma WordsAfterBlank(lead: string, t: string)
    requires |lead| > 0 && IsBlank(Last(lead))
    requires |t| > 0 && t[0] != ' ' && '\t' !in t && NoDoubleSpace(t)
    ensures |Words(lead + t)| >= |Split(t, ' ')|
    ensures Words(lead + t)[|Words(lead + t)| - |Split(t, ' ')|..] == Split(t, ' ')
  {
    NormalAfterBlank(lead, t);
    var cp := CollapsePairs(ReplaceChar(lead, '\t', ' '));
    var c := cp[..|cp| - 1];
    assert cp + t == c + [' '] + t;
    SplitConcat(c, ' ', t);
    SuffixOf(Split(c, ' '), Split(t, ' '));
  }

  lemma SuffixOf<T>(a: seq<T>, b: seq<T>)
    ensures (a + b)[|a + b| - |b|..] == b
  {
  }

  /** ASCII `str.lower`. */
  function ToLower(s: string): (r: string)
    ensures |r| == |s|
    ensures forall i :: 0 <= i < |s| ==> r[i] == if 'A' <= s[i] <= 'Z' then s[i] - 'A' + 'a' else s[i]
  {
    if |s| == 0 then ""
    else [if 'A' <= s[0] <= 'Z' then s[0] - 'A' + 'a' else s[0]] + ToLower(s[1..])
  }

  /**
   * Python's slice `s[start:-drop]` for `drop > 0`, and `s[start:]` for
   * `drop == 0`; out-of-range bounds are clamped, giving "".
   */
  function Slice(s: string, start: nat, drop: nat): (r: string)
    ensures start + drop <= |s| ==> |r| == |s| - start - drop
    ensures start + drop > |s| ==> r == ""
  {
    if start + drop <= |s| then s[start..|s| - drop] else ""
  }
}
