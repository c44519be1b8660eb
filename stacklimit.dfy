/**
 * The analysis: `parse` builds the function table and the call graph from
 * the lines of an objdump listing, and `calculate_stack` walks the graph
 * to give every function the stack it needs with the functions it calls.
 *
 * The listing is a sequence of lines; running objdump is not part of the
 * model. What a call adds to the stack (`get_stack_call_size`, which none
 * of the patterns implements) and the branch an ARM line takes are
 * parameters of `Parse`.
 */
module Analysis {
  import opened Wrappers
  import opened Text
  import opened Numbers
  import opened Architecture
  import opened Patterns
  import opened Instructions
  import opened DataStructure

  // ---------------------------------------------------------------------
  // The immediate of a `sub` on the stack pointer

  /** Immediates above this are ignored. */
  const IGNORED: int := 0xF000_0000_0000_0000
  /** Immediates above this are read as 32-bit negative numbers. */
  const WRAPPED: int := 0xF000_0000
  /** Amounts above this are ignored. */
  const MAX_SUB: int := 0x1000_0000
  const TWO_32: int := 0x1_0000_0000

  /** The text of the immediate as a number: hexadecimal after `0x`, decimal otherwise. */
  function DecodeSub(text: string): (r: Result<int>)
    ensures r.Err? ==> r.error == ValueError
  {
    if |text| >= 2 && text[..2] == "0x" then ParseInt(text, Hexadecimal) else ParseInt(text, Decimal)
  }

  /** A hexadecimal immediate reads back as its value. */
  lemma DecodeSubHex(n: nat)
    ensures DecodeSub("0x" + ToDigits(n, Hexadecimal)) == Ok(n)
  {
    var s := "0x" + ToDigits(n, Hexadecimal);
    assert s[..2] == "0x";
    ParseToHex(n);
  }

  /** A decimal immediate, negative ones included, reads back as its value. */
  lemma DecodeSubDecimal(n: int)
    ensures DecodeSub(ToDecimal(n)) == Ok(n)
  {
    var s := ToDecimal(n);
    if n >= 0 && |s| >= 2 {
      assert IsDigitOf(s[1], Decimal);
    }
    assert |s| < 2 || s[..2] != "0x" by {
      if |s| >= 2 && n < 0 {
        assert s[0] == '-';
      }
      if |s| >= 2 && n >= 0 {
        assert s[..2][1] == s[1];
      }
    }
    ParseToDecimal(n);
  }

  /**
   * The amount a `sub` of the immediate `size` adds to the stack: nothing
   * above `IGNORED`; above `WRAPPED` the 32-bit negation of `size`;
   * nothing when that is above `MAX_SUB`.
   */
  function Clamp(size: int): (r: Option<int>)
    ensures r.None? <==> size > IGNORED || MAX_SUB < size <= WRAPPED
    ensures r.Some? ==> r.value <= MAX_SUB
    ensures r.Some? && size <= WRAPPED ==> r.value == size
    ensures r.Some? && size > WRAPPED ==> r.value < MAX_SUB && (r.value + size) % TWO_32 == 0
  {
    if size > IGNORED then None
    else
      var s := if size > WRAPPED then -size + 0x8000_0000 + 0x8000_0000 else size;
      if s > MAX_SUB then None else Some(s)
  }

  /** A 32-bit negative immediate `-n` adds `n`, for `n` below `MAX_SUB`. */
  lemma ClampNegative(n: int)
    requires 0 < n < MAX_SUB
    ensures Clamp(TWO_32 - n) == Some(n)
  {
  }

  /** An immediate wider than 32 bits that is not ignored takes from the stack. */
  lemma ClampWide(size: int)
    requires TWO_32 < size <= IGNORED
    ensures Clamp(size).Some? && Clamp(size).value < 0
  {
  }

  /**
   * What a `sub` line adds to the stack: the text of its immediate, its
   * value, and the clamp; `Ok(None)` when the immediate is ignored.
   */
  function SubAmount(a: Arch, line: string): (r: Result<Option<int>>)
    ensures r.Ok? && r.value.Some? ==> r.value.value <= MAX_SUB
    ensures r.Err? ==> r.error in {IndexError, ValueError}
  {
    match SubText(a, line)
    case Err(e) => Err(e)
    case Ok(text) =>
      match DecodeSub(text)
      case Err(e) => Err(e)
      case Ok(size) => Ok(Clamp(size))
  }

  /** On x86, `sub $0x...,reg` adds the hexadecimal immediate when it is at most `MAX_SUB`. */
  lemma SubAmountHex(a: Arch, pre: string, n: nat, reg: string)
    requires a == X86 || a == X86_64
    requires ' ' !in reg && n <= MAX_SUB
    ensures SubAmount(a, pre + " " + "$" + ("0x" + ToDigits(n, Hexadecimal)) + "," + reg) == Ok(Some(n))
  {
    var imm := "0x" + ToDigits(n, Hexadecimal);
    assert ' ' !in imm && ',' !in imm by {
      forall i | 0 <= i < |imm| ensures imm[i] != ' ' && imm[i] != ',' {
        if i >= 2 {
          assert imm[i] == ToDigits(n, Hexadecimal)[i - 2];
        }
      }
    }
    var line := pre + " " + "$" + imm + "," + reg;
    X86Patterns.GetStackSubSizeOf(pre, imm, reg);
    assert SubText(a, line) == Ok(imm);
    DecodeSubHex(n);
    assert Clamp(n) == Some(n);
  }

  // ---------------------------------------------------------------------
  // The file of a file-format line

  /** The name of the file in a file-format line: the first word, without its colon, after the last `/`. */
  function FileOf(line: string): string {
    Last(Split(Slice(Split(line, ' ')[0], 0, 1), '/'))
  }

  /** `dir/name:  file format ...` names the file `name`. */
  lemma FileOfPath(dir: string, name: string, rest: string)
    requires ' ' !in dir && ' ' !in name && '/' !in name
    ensures FileOf(dir + "/" + name + ":" + " " + rest) == name
  {
    var path := dir + "/" + name;
    assert ' ' !in path + ":";
    assert dir + "/" + name + ":" + " " + rest == (path + ":") + [' '] + rest;
    SplitConcat(path + ":", ' ', rest);
    SplitFree(path + ":", ' ');
    assert Slice(path + ":", 0, 1) == path;
    assert path == dir + ['/'] + name;
    SplitLast(dir, '/', name);
  }

  /** Without a directory, the file is the first word without its colon. */
  lemma FileOfName(name: string, rest: string)
    requires ' ' !in name && '/' !in name
    ensures FileOf(name + ":" + " " + rest) == name
  {
    assert ' ' !in name + ":";
    assert name + ":" + " " + rest == (name + ":") + [' '] + rest;
    SplitConcat(name + ":", ' ', rest);
    SplitFree(name + ":", ' ');
    assert Slice(name + ":", 0, 1) == name;
    SplitFree(name, '/');
  }

  // ---------------------------------------------------------------------
  // Tables of functions and the call edges between them

  /** The functions of a table. */
  function Members(fs: seq<Function>): set<Function> {
    set f | f in fs
  }

  /** No two functions of the table share an address. */
  predicate Unique(fs: seq<Function>) {
    forall i, j | 0 <= i < |fs| && 0 <= j < |fs| && fs[i].address == fs[j].address :: i == j
  }

  lemma UniqueIdentity(fs: seq<Function>, x: Function, y: Function)
    requires Unique(fs) && x in fs && y in fs && x.address == y.address
    ensures x == y
  {
    var i :| 0 <= i < |fs| && fs[i] == x;
    var j :| 0 <= j < |fs| && fs[j] == y;
  }

  /**
   * The call edges between the functions of the table (`live`) and those
   * the post-pass has removed (`gone`): every function calls only
   * functions of the table, every caller is one of either, and `g` lists
   * `f` among its calls exactly as often as `f` lists `g` among its
   * callers.
   */
  ghost predicate Linked(live: set<Function>, gone: set<Function>)
    reads live`calls, live`callers, gone`calls, gone`callers
  {
    && (forall c, i | c in live + gone && 0 <= i < |c.calls| :: c.calls[i] in live)
    && (forall f, i | f in live && 0 <= i < |f.callers| :: f.callers[i] in live + gone)
    && (forall c, f | c in live + gone && f in live :: multiset(c.calls)[f] == multiset(f.callers)[c])
  }

  /** A new function without edges joins the table without breaking the edges. */
  lemma LinkedGrow(live: set<Function>, gone: set<Function>, f: Function)
    requires Linked(live, gone) && f !in live && f !in gone && f.calls == [] && f.callers == []
    ensures Linked(live + {f}, gone)
  {
    forall c | c in live + gone ensures multiset(c.calls)[f] == 0 {
      assert f !in c.calls;
    }
  }

  /** A function of the table calls only functions of the table, so none of an address the table lacks. */
  lemma Uncalled(fs: seq<Function>, gone: set<Function>, c: Function, address: int)
    requires Linked(Members(fs), gone) && c in fs && FindIn(fs, address).None?
    ensures FindIn(c.calls, address).None?
  {
    forall j | 0 <= j < |c.calls| ensures c.calls[j].address != address {
      assert c.calls[j] in Members(fs);
    }
  }

  /** An address that is not in `s` is found at the function appended to `s`. */
  lemma {:induction false} LocateLast(s: seq<Function>, f: Function, address: int)
    requires Locate(s, address) == |s| && f.address == address
    ensures Locate(s + [f], address) == |s|
  {
    if |s| > 0 {
      assert (s + [f])[1..] == s[1..] + [f];
      LocateLast(s[1..], f, address);
    }
  }

  /** An address found in a table is found at the same function once the table has grown. */
  lemma FoundStays(s: seq<Function>, t: seq<Function>)
    requires s <= t
    ensures forall address | FindIn(s, address).Some? :: FindIn(t, address) == FindIn(s, address)
  {
    forall address | FindIn(s, address).Some? ensures FindIn(t, address) == FindIn(s, address) {
      FoundPrefix(s, t, address);
    }
  }

  lemma {:induction false} FoundPrefix(s: seq<Function>, t: seq<Function>, address: int)
    requires s <= t && FindIn(s, address).Some?
    ensures FindIn(t, address) == FindIn(s, address)
  {
    if s[0].address != address {
      assert s[1..] <= t[1..];
      FoundPrefix(s[1..], t[1..], address);
    }
  }

  /** An optional address as a set. */
  function Addresses(o: Option<int>): set<int> {
    if o.Some? then {o.value} else {}
  }

  /** A call edge: `caller` calls `callee`. */
  datatype Edge = Edge(caller: Function, callee: Function)

  /** The record `_track_operation` adds: the line's operation with its impact, when the line has one. */
  function Recorded(line: string, impact: StackImpact): seq<(string, StackImpact)> {
    match GetOperation(line)
    case Some(op) => [(op, impact)]
    case None => []
  }

  /** The function of `current`, as a set. */
  function Opt(current: Option<Function>): set<Function> {
    if current.Some? then {current.value} else {}
  }

  /** The size of the current function, 0 when there is none. */
  function SizeOf(current: Option<Function>): int
    reads Opt(current)`size
  {
    if current.Some? then current.value.size else 0
  }

  /** The calls of the current function, none when there is none. */
  function CallsOf(current: Option<Function>): seq<Function>
    reads Opt(current)`calls
  {
    if current.Some? then current.value.calls else []
  }

  /** Whether the current function is marked dynamic, false when there is none. */
  function DynamicOf(current: Option<Function>): bool
    reads Opt(current)`dynamic
  {
    current.Some? && current.value.dynamic
  }

  /**
   * `_regard_function`: the stack diagnostics never regard the
   * function-pointer sentinel, and unless told to regard every function
   * only those of `.text` that are not operating-system functions.
   */
  predicate Regard(f: Function, regardOs: bool)
    reads f`section
  {
    f.address != 0 && (regardOs || (f.section == Some(".text") && f.name !in OS_FUNCTIONS))
  }

  /** Where `parse` is in the listing: the file and section last named, and the function last labelled. */
  datatype Cursor = Cursor(file: Option<string>, section: Option<string>, current: Option<Function>)

  /** The visited functions of a table. */
  function VisitedIn(fs: seq<Function>): set<Function>
    reads fs
  {
    set f | f in fs && f.visited
  }

  // ---------------------------------------------------------------------
  // The post-pass of `parse`

  /**
   * The functions the post-pass drops, in table order: those no label
   * visited, but the function-pointer sentinel.
   */
  function Unlabelled(fs: seq<Function>): (r: seq<Function>)
    reads fs
    ensures forall f | f in r :: f in fs && !f.visited && f.address != 0
    ensures forall f | f in fs && !f.visited && f.address != 0 :: f in r
  {
    if |fs| == 0 then []
    else (if !fs[0].visited && fs[0].address != 0 then [fs[0]] else []) + Unlabelled(fs[1..])
  }

  /** The table `fs` with the functions of `drop` deleted, the others in their order. */
  function Keep(fs: seq<Function>, drop: set<Function>): (r: seq<Function>)
    ensures forall f | f in r :: f in fs && f !in drop
    ensures forall f | f in fs && f !in drop :: f in r
  {
    if |fs| == 0 then []
    else (if fs[0] in drop then [] else [fs[0]]) + Keep(fs[1..], drop)
  }

  /** Deleting functions other than the first keeps the first in front. */
  lemma KeepHead(fs: seq<Function>, drop: set<Function>)
    requires |fs| > 0 && fs[0] !in drop
    ensures Keep(fs, drop) != [] && Keep(fs, drop)[0] == fs[0]
  {
  }

  /** The next function of a list with unique addresses is not among those before it. */
  lemma MembersNext(s: seq<Function>, i: nat)
    requires Unique(s) && i < |s|
    ensures s[i] !in Members(s[..i])
    ensures Members(s[..i + 1]) == Members(s[..i]) + {s[i]}
  {
    assert s[..i + 1] == s[..i] + [s[i]];
    forall j | 0 <= j < i ensures s[j] != s[i] {
      assert s[j].address != s[i].address || j == i;
    }
  }

  lemma KeepLess(fs: seq<Function>, drop: set<Function>, f: Function)
    ensures Members(Keep(fs, drop + {f})) == Members(Keep(fs, drop)) - {f}
  {
  }

  /** The functions kept and those deleted make up the table. */
  lemma KeepSplit(fs: seq<Function>, drop: set<Function>)
    requires drop <= Members(fs)
    ensures Members(Keep(fs, drop)) + drop == Members(fs)
  {
  }

  /** Deleting nothing leaves the table as it is. */
  lemma {:induction false} KeepNothing(fs: seq<Function>)
    ensures Keep(fs, {}) == fs
  {
    if |fs| > 0 {
      KeepNothing(fs[1..]);
      assert fs == [fs[0]] + fs[1..];
    }
  }

  /** A function of a table with unique addresses that is not deleted is still what `find` gives for its address. */
  lemma FindKept(fs: seq<Function>, drop: set<Function>, x: Function)
    requires Unique(fs) && x in fs && x !in drop
    ensures FindIn(Keep(fs, drop), x.address) == Some(x)
  {
    var r := Keep(fs, drop);
    var y := FindIn(r, x.address);
    var i :| 0 <= i < |r| && r[i] == x;
    assert y.Some?;
    UniqueIdentity(fs, y.value, x);
  }

  /** The post-pass keeps every visited function, where `find` finds it. */
  lemma KeptVisited(fs: seq<Function>, dropped: seq<Function>, k: nat)
    requires Unique(fs) && dropped == Unlabelled(fs) && k <= |dropped|
    ensures forall f | f in VisitedIn(fs) :: FindIn(Keep(fs, Members(dropped[..k])), f.address) == Some(f)
  {
    forall f | f in VisitedIn(fs)
      ensures FindIn(Keep(fs, Members(dropped[..k])), f.address) == Some(f)
    {
      assert f !in dropped;
      FindKept(fs, Members(dropped[..k]), f);
    }
  }

  /** A complete post-pass leaves only visited functions and the sentinel. */
  lemma KeptAll(fs: seq<Function>, dropped: seq<Function>)
    requires dropped == Unlabelled(fs)
    ensures forall f | f in Keep(fs, Members(dropped[..|dropped|])) :: f in VisitedIn(fs) || f.address == 0
  {
    assert dropped[..|dropped|] == dropped;
  }

  /** The position of the first function of `s` without callers, or the length. */
  function Orphan(s: seq<Function>): (k: nat)
    reads s
    ensures k <= |s|
    ensures forall j | 0 <= j < k :: s[j].callers != []
    ensures k < |s| ==> s[k].callers == []
  {
    if |s| == 0 || s[0].callers == [] then 0 else 1 + Orphan(s[1..])
  }

  lemma UniqueCons(x: Function, t: seq<Function>)
    ensures Unique([x] + t) <==> Unique(t) && forall i | 0 <= i < |t| :: t[i].address != x.address
  {
    var s := [x] + t;
    assert forall i | 0 <= i < |t| :: s[i + 1] == t[i];
    if Unique(s) {
      forall i, j | 0 <= i < |t| && 0 <= j < |t| && t[i].address == t[j].address ensures i == j {
        assert s[i + 1].address == s[j + 1].address;
      }
      forall i | 0 <= i < |t| ensures t[i].address != x.address {
        assert s[i + 1].address != s[0].address;
      }
    }
    if Unique(t) && forall i | 0 <= i < |t| :: t[i].address != x.address {
      forall i, j | 0 <= i < |s| && 0 <= j < |s| && s[i].address == s[j].address ensures i == j {
        if i > 0 && j > 0 {
          assert t[i - 1].address == t[j - 1].address;
        }
      }
    }
  }

  /** Deleting functions keeps the addresses unique. */
  lemma {:induction false} KeepUnique(fs: seq<Function>, drop: set<Function>)
    requires Unique(fs)
    ensures Unique(Keep(fs, drop))
  {
    if |fs| > 0 {
      assert fs == [fs[0]] + fs[1..];
      UniqueCons(fs[0], fs[1..]);
      KeepUnique(fs[1..], drop);
      var t := Keep(fs[1..], drop);
      if fs[0] !in drop {
        forall i | 0 <= i < |t| ensures t[i].address != fs[0].address {
          assert t[i] in fs[1..];
        }
        UniqueCons(fs[0], t);
      }
    }
  }

  /** The functions the post-pass drops have unique addresses. */
  lemma {:induction false} UnlabelledUnique(fs: seq<Function>)
    requires Unique(fs)
    ensures Unique(Unlabelled(fs))
  {
    if |fs| > 0 {
      assert fs == [fs[0]] + fs[1..];
      UniqueCons(fs[0], fs[1..]);
      UnlabelledUnique(fs[1..]);
      var t := Unlabelled(fs[1..]);
      if !fs[0].visited && fs[0].address != 0 {
        forall i | 0 <= i < |t| ensures t[i].address != fs[0].address {
          assert t[i] in fs[1..];
        }
        UniqueCons(fs[0], t);
      }
    }
  }

  /** Deleting a function that is not in the table changes nothing. */
  lemma {:induction false} KeepAbsent(fs: seq<Function>, drop: set<Function>, f: Function)
    requires f !in fs
    ensures Keep(fs, drop + {f}) == Keep(fs, drop)
  {
    if |fs| > 0 {
      KeepAbsent(fs[1..], drop, f);
    }
  }

  /** `del` on a table whose first function is not `==` to the key keeps that function in front. */
  lemma RemoveCons(v: Variant, x: Function, t: seq<Function>, key: Function)
    requires !Same(v, x, key) && Remove(v, t, key).Ok?
    ensures Remove(v, [x] + t, key) == Ok([x] + Remove(v, t, key).value)
  {
    var s := [x] + t;
    assert s[1..] == t;
    var i := Position(v, t, key);
    assert Position(v, s, key) == i + 1;
    assert Remove(v, t, key) == Ok(t[..i] + t[i + 1..]);
    assert Remove(v, s, key) == Ok(s[..i + 1] + s[i + 2..]);
    SpliceCons(x, t, i);
  }

  /** Cutting out the element after position `i` of `[x] + t` is cutting out position `i` of `t`. */
  lemma SpliceCons(x: Function, t: seq<Function>, i: nat)
    requires i < |t|
    ensures ([x] + t)[..i + 1] + ([x] + t)[i + 2..] == [x] + (t[..i] + t[i + 1..])
  {
    var s := [x] + t;
    assert s[..i + 1] == [x] + t[..i];
    assert s[i + 2..] == t[i + 1..];
  }

  /** `del` of the first function of a table. */
  lemma RemoveHead(v: Variant, x: Function, t: seq<Function>)
    ensures Remove(v, [x] + t, x) == Ok(t)
  {
    EqualIff(v, KeyOf(x), KeyOf(x));
    var s := [x] + t;
    assert Position(v, s, x) == 0;
    assert s[..0] + s[1..] == t;
  }

  /**
   * `del table[f]` on a table of unique addresses: the first function
   * `==` to `f` is `f` itself, so `f` alone goes.
   */
  lemma {:induction false} KeepRemove(v: Variant, fs: seq<Function>, drop: set<Function>, f: Function)
    requires Unique(fs) && f in fs && f !in drop
    ensures Remove(v, Keep(fs, drop), f) == Ok(Keep(fs, drop + {f}))
  {
    assert fs == [fs[0]] + fs[1..];
    UniqueCons(fs[0], fs[1..]);
    var t, t' := Keep(fs[1..], drop), Keep(fs[1..], drop + {f});
    if fs[0] == f {
      assert f !in fs[1..];
      KeepAbsent(fs[1..], drop, f);
      assert Keep(fs, drop) == [f] + t && Keep(fs, drop + {f}) == t' == t;
      RemoveHead(v, f, t);
    } else {
      assert f in fs[1..];
      KeepRemove(v, fs[1..], drop, f);
      if fs[0] in drop {
        assert Keep(fs, drop) == t && Keep(fs, drop + {f}) == t';
      } else {
        assert Keep(fs, drop) == [fs[0]] + t && Keep(fs, drop + {f}) == [fs[0]] + t';
        assert !Same(v, fs[0], f) by {
          EqualIff(v, KeyOf(fs[0]), KeyOf(f));
          var i :| 0 <= i < |fs[1..]| && fs[1..][i] == f;
        }
        RemoveCons(v, fs[0], t, f);
      }
    }
  }

  /** `calls` is `before` with every occurrence of a function of `drop` taken out. */
  predicate Without(calls: seq<Function>, before: seq<Function>, drop: set<Function>) {
    && (forall x | x in calls :: x !in drop && multiset(calls)[x] == multiset(before)[x])
    && (forall x | x in before && x !in drop :: multiset(calls)[x] == multiset(before)[x])
  }

  /** No two functions of `live` share an address. */
  ghost predicate Distinct(live: set<Function>) {
    forall x, y | x in live && y in live && x.address == y.address :: x == y
  }

  lemma UniqueDistinct(fs: seq<Function>)
    requires Unique(fs)
    ensures Distinct(Members(fs))
  {
    forall x, y | x in Members(fs) && y in Members(fs) && x.address == y.address ensures x == y {
      UniqueIdentity(fs, x, y);
    }
  }

  /** Taking out `drop` and then `more` is taking out both. */
  lemma WithoutCompose(a: seq<Function>, b: seq<Function>, c: seq<Function>, drop: set<Function>, more: set<Function>)
    requires Without(b, a, drop) && Without(c, b, more)
    ensures Without(c, a, drop + more)
  {
  }

  /** `now` is `before` with `n` occurrences of `f` taken out. */
  ghost predicate Depleted(now: seq<Function>, before: seq<Function>, f: Function, n: nat) {
    multiset(now) + multiset{}[f := n] == multiset(before)
  }

  /**
   * `del calls[f]` where every function of `calls` is one of `live`, whose
   * addresses are unique: the one occurrence of `f` that goes is `f`
   * itself.
   */
  lemma RemoveOne(v: Variant, calls: seq<Function>, f: Function, live: set<Function>)
    requires f in calls && Distinct(live) && forall i | 0 <= i < |calls| :: calls[i] in live
    ensures Remove(v, calls, f).Ok?
    ensures multiset(Remove(v, calls, f).value) == multiset(calls) - multiset{f}
  {
    EqualIff(v, KeyOf(f), KeyOf(f));
    var p := Position(v, calls, f);
    EqualIff(v, KeyOf(calls[p]), KeyOf(f));
  }

  /** One more occurrence of `f` taken out. */
  lemma DepletedStep(now: seq<Function>, next: seq<Function>, before: seq<Function>, f: Function, n: nat)
    requires Depleted(now, before, f, n) && f in now && multiset(next) == multiset(now) - multiset{f}
    ensures Depleted(next, before, f, n + 1)
  {
    assert multiset{}[f := n + 1] == multiset{}[f := n] + multiset{f};
  }

  /** Every occurrence of `f` taken out. */
  lemma DepletedAll(now: seq<Function>, before: seq<Function>, f: Function)
    requires Depleted(now, before, f, multiset(before)[f])
    ensures Without(now, before, {f})
  {
    forall x | x in now ensures x != f && multiset(now)[x] == multiset(before)[x] {
      assert multiset(now)[x] + multiset{}[f := multiset(before)[f]][x] == multiset(before)[x];
    }
    forall x | x in before && x != f ensures multiset(now)[x] == multiset(before)[x] {
      assert multiset(now)[x] + multiset{}[f := multiset(before)[f]][x] == multiset(before)[x];
    }
  }

  /** The functions of `now`, a part of `before`, are among those of `before`. */
  lemma DepletedWithin(now: seq<Function>, before: seq<Function>, f: Function, n: nat, live: set<Function>)
    requires Depleted(now, before, f, n) && forall i | 0 <= i < |before| :: before[i] in live
    ensures forall i | 0 <= i < |now| :: now[i] in live
  {
    forall i | 0 <= i < |now| ensures now[i] in live {
      assert multiset(now)[now[i]] > 0;
      assert (multiset(now) + multiset{}[f := n])[now[i]] > 0;
      assert now[i] in multiset(before);
    }
  }

  /** The calls, as `calls` records them, and the callers of `live` and `gone` are linked. */
  ghost predicate Snapped(calls: map<Function, seq<Function>>, live: set<Function>, gone: set<Function>)
    reads live`callers
  {
    && (forall c | c in live + gone :: c in calls)
    && (forall c, i | c in live + gone && c in calls && 0 <= i < |calls[c]| :: calls[c][i] in live)
    && (forall f, i | f in live && 0 <= i < |f.callers| :: f.callers[i] in live + gone)
    && (forall c, f | c in live + gone && c in calls && f in live :: multiset(calls[c])[f] == multiset(f.callers)[c])
  }

  /** Once none of them calls `f`, `f` is linked as one of the removed functions. */
  lemma LinkedUnlinked(calls: map<Function, seq<Function>>, live: set<Function>, gone: set<Function>, f: Function)
    requires f in live && Snapped(calls, live, gone)
    requires forall c | c in live + gone :: Without(c.calls, calls[c], {f})
    ensures Linked(live - {f}, gone + {f})
  {
    assert live - {f} + (gone + {f}) == live + gone;
    forall c, i | c in live + gone && 0 <= i < |c.calls| ensures c.calls[i] in live - {f} {
      var x := c.calls[i];
      assert x in c.calls;
      assert Without(c.calls, calls[c], {f});
      assert x != f && multiset(calls[c])[x] > 0;
      assert x in calls[c];
      var j :| 0 <= j < |calls[c]| && calls[c][j] == x;
    }
  }

  /**
   * `for caller in function.returns: del caller.calls[function]`: each
   * caller of `f` loses one occurrence of `f` from its calls for each
   * time it is listed among the callers of `f`, so no function calls `f`
   * any more and `f` joins the removed functions.
   */
  method Unlink(v: Variant, f: Function, ghost live: set<Function>, ghost gone: set<Function>,
                ghost calls: map<Function, seq<Function>>, ghost drop: set<Function>, ghost others: seq<Function>)
    requires f in live && Linked(live, gone) && Distinct(live)
    requires calls.Keys == live + gone && forall c | c in calls :: Without(c.calls, calls[c], drop)
    modifies Members(f.callers)`calls
    ensures Linked(live - {f}, gone + {f})
    ensures forall c | c in calls :: Without(c.calls, calls[c], drop + {f})
    ensures forall j | 0 <= j < |others| :: others[j].callers == old(others[j].callers)
  {
    ghost var now := map c | c in live + gone :: c.calls;
    assert Snapped(now, live, gone);
    Strip(v, f, f.callers, now, live);
    LinkedUnlinked(now, live, gone, f);
    forall c | c in calls ensures Without(c.calls, calls[c], drop + {f}) {
      WithoutCompose(calls[c], now[c], c.calls, drop, {f});
    }
  }

  /** The occurrences of the element at `i` before it are fewer than in the whole sequence. */
  lemma PrefixCount(s: seq<Function>, i: nat)
    requires i < |s|
    ensures multiset(s[..i + 1]) == multiset(s[..i]) + multiset{s[i]}
    ensures multiset(s[..i])[s[i]] < multiset(s)[s[i]]
  {
    assert s[..i + 1] == s[..i] + [s[i]];
    assert s == s[..i + 1] + s[i + 1..];
  }

  /** The loop of `Unlink`, over the callers `callers` of `f`, on the calls `calls` had before. */
  method Strip(v: Variant, f: Function, callers: seq<Function>, ghost calls: map<Function, seq<Function>>, ghost live: set<Function>)
    requires Distinct(live) && forall i | 0 <= i < |callers| :: callers[i] in calls
    requires forall c | c in calls :: c.calls == calls[c] && multiset(calls[c])[f] == multiset(callers)[c]
    requires forall c, i | c in calls && 0 <= i < |calls[c]| :: calls[c][i] in live
    modifies Members(callers)`calls
    ensures forall c | c in calls :: Without(c.calls, calls[c], {f})
  {
    for i := 0 to |callers|
      invariant forall c | c in calls :: Depleted(c.calls, calls[c], f, multiset(callers[..i])[c])
    {
      StripOne(v, f, callers[i], callers, i, calls, live);
    }
    assert callers[..|callers|] == callers;
    forall c | c in calls ensures Without(c.calls, calls[c], {f}) {
      DepletedAll(c.calls, calls[c], f);
    }
  }

  /** One turn of the loop of `Unlink`: `del callers[i].calls[f]`. */
  method StripOne(v: Variant, f: Function, c: Function, callers: seq<Function>, i: nat, ghost calls: map<Function, seq<Function>>, ghost live: set<Function>)
    requires i < |callers| && callers[i] == c && c in calls && Distinct(live)
    requires forall c | c in calls :: multiset(calls[c])[f] == multiset(callers)[c]
    requires forall c, j | c in calls && 0 <= j < |calls[c]| :: calls[c][j] in live
    requires forall c | c in calls :: Depleted(c.calls, calls[c], f, multiset(callers[..i])[c])
    modifies c`calls
    ensures forall c | c in calls :: Depleted(c.calls, calls[c], f, multiset(callers[..i + 1])[c])
  {
    ghost var n := multiset(callers[..i])[c];
    PrefixCount(callers, i);
    DepletedWithin(c.calls, calls[c], f, n, live);
    RemoveOne(v, c.calls, f, live);
    ghost var now := c.calls;
    c.calls := Remove(v, c.calls, f).value;
    DepletedStep(now, c.calls, calls[c], f, n);
  }

  // ---------------------------------------------------------------------
  // The stack calculation

  /** The entrances of `calculate_stack`: the functions of the table without callers, in table order. */
  function Roots(fs: seq<Function>): (r: seq<Function>)
    reads (set f | f in fs)`callers
    ensures forall f | f in r :: f in fs && f.callers == []
    ensures forall f | f in fs && f.callers == [] :: f in r
  {
    if |fs| == 0 then []
    else (if fs[0].callers == [] then [fs[0]] else []) + Roots(fs[1..])
  }

  /** The functions of `universe` the walk has not visited yet. */
  ghost function Unseen(universe: set<Function>): set<Function>
    reads universe`visited
  {
    set f | f in universe && !f.visited
  }

  /** The edges of the table stay inside it. */
  lemma LinkedClosed(live: set<Function>, gone: set<Function>)
    requires Linked(live, gone)
    ensures Closed(live)
  {
  }

  /** Whether a function calls the function-pointer sentinel. */
  predicate CallsPointer(f: Function)
    reads f`calls
  {
    exists j | 0 <= j < |f.calls| :: f.calls[j].address == 0
  }

  /** `max(0, child.total for child in calls)`, taken from the first child to the last. */
  function MaxTotal(calls: seq<Function>): (m: int)
    reads (set f | f in calls)`total
    ensures m >= 0
    ensures forall j | 0 <= j < |calls| :: calls[j].total <= m
    ensures m == 0 || exists j | 0 <= j < |calls| :: calls[j].total == m
  {
    if |calls| == 0 then 0
    else
      var m := MaxTotal(calls[..|calls| - 1]);
      if Last(calls).total > m then Last(calls).total else m
  }

  /** The accumulator loop of `calculate_stack`: the largest total of the calls, or 0. */
  method SubcallSize(calls: seq<Function>) returns (m: int)
    ensures m == MaxTotal(calls)
  {
    m := 0;
    for i := 0 to |calls|
      invariant m == MaxTotal(calls[..i])
    {
      assert calls[..i + 1][..i] == calls[..i];
      m := if calls[i].total > m then calls[i].total else m;
    }
    assert calls[..|calls|] == calls;
  }

  /** `node.imprecise = True` for every frame of `frames`. */
  method MarkImprecise(frames: seq<Function>)
    modifies Members(frames)`imprecise
    ensures forall f | f in frames :: f.imprecise
  {
    for i := 0 to |frames|
      invariant forall j | 0 <= j < i :: frames[j].imprecise
    {
      frames[i].imprecise := true;
    }
  }

  /** `node.imprecise = True` and `node.cycle = True` for every frame of `frames`. */
  method MarkCycle(frames: seq<Function>)
    modifies Members(frames)`imprecise, Members(frames)`cycle
    ensures forall f | f in frames :: f.imprecise && f.cycle
  {
    for i := 0 to |frames|
      invariant forall j | 0 <= j < i :: frames[j].imprecise && frames[j].cycle
    {
      frames[i].imprecise := true;
      frames[i].cycle := true;
    }
  }

  /** The loop of `calculate_stack` over the entrances: false at the first imprecise one. */
  method Precise(entrances: seq<Function>) returns (r: bool)
    ensures r <==> forall i | 0 <= i < |entrances| :: !entrances[i].imprecise
  {
    for i := 0 to |entrances|
      invariant forall j | 0 <= j < i :: !entrances[j].imprecise
    {
      if entrances[i].imprecise {
        return false;
      }
    }
    return true;
  }

  // ---------------------------------------------------------------------
  // The analyser

  /** The stack analyser of a binary: its function table and its warning switches. */
  class Stacklimit {
    const variant: Variant
    const arch: Arch
    const multipleWarn: bool
    const regardOs: bool
    var warnCycle: bool
    var warnFp: bool
    var warnDynamic: bool
    const table: Table
    /** The functions the post-pass removed from the table (proof-only): they are still callers of others. */
    ghost var former: set<Function>

    /**
     * The table starts with the function-pointer sentinel, addresses are
     * unique, the call edges are consistent, and the statistic
     * summarises its records.
     */
    ghost predicate Valid()
      reads this`former, table, table.statistic
      reads Members(table.functions)`calls, Members(table.functions)`callers, former`calls, former`callers
    {
      table.statistic.Valid() && Graph()
    }

    /** The table and its call edges: the sentinel first, unique addresses, consistent edges. */
    ghost predicate Graph()
      reads this`former, table
      reads Members(table.functions)`calls, Members(table.functions)`callers, former`calls, former`callers
    {
      && |table.functions| > 0 && table.functions[0].address == 0
      && Unique(table.functions)
      && Linked(Members(table.functions), former)
    }

    /**
     * The analyser of an architecture, with a table holding only the
     * sentinel that stands for every function called through a pointer.
     */
    constructor (variant: Variant, arch: Arch, warn: bool, multipleWarn: bool, regardOs: bool)
      ensures Valid() && fresh(table) && former == {}
      ensures this.variant == variant && this.arch == arch
      ensures this.multipleWarn == multipleWarn && this.regardOs == regardOs
      ensures warnCycle == warn && warnFp == warn && warnDynamic == warn
      ensures |table.functions| == 1 && fresh(table.functions[0]) && table.statistic.history == []
      ensures var s := table.functions[0];
        && s.address == 0 && s.name == "Function Pointer" && s.section.None? && s.file == DefaultFile(variant)
        && s.calls == [] && s.callers == [] && s.size == 0 && !s.visited
    {
      this.variant := variant;
      this.arch := arch;
      this.multipleWarn := multipleWarn;
      this.regardOs := regardOs;
      warnCycle, warnFp, warnDynamic := warn, warn, warn;
      var sentinel := new Function(0, Some("Function Pointer"), None, DefaultFile(variant));
      table := new Table([sentinel]);
      former := {};
      new;
      assert Members(table.functions) == {sentinel};
    }

    /** What `_track_operation` records: the package records the operation, the older script nothing. */
    function Tracked(line: string, impact: StackImpact): seq<(string, StackImpact)> {
      if variant == Package then Recorded(line, impact) else []
    }

    /** `_track_operation`: the statistic counts the operation of the line with its impact. */
    method Track(line: string, impact: StackImpact)
      requires Valid()
      modifies table.statistic
      ensures Valid() && table.statistic.history == old(table.statistic.history) + Tracked(line, impact)
    {
      if variant == Package {
        var op := GetOperation(line);
        if op.Some? {
          assert Graph();
          table.statistic.AddOperation(op.value, impact);
          assert Graph();
        }
      }
    }

    /** A push: the function grows by the push size; an error or no current function changes nothing. */
    method PushOp(line: string, current: Option<Function>) returns (e: Option<Error>)
      requires Valid()
      modifies Opt(current)`size, table.statistic
      ensures Valid()
      ensures PushEffect(line, current, e, old(SizeOf(current)), old(CallsOf(current)), old(DynamicOf(current)),
                  old(table.functions), old(table.statistic.history))
    {
      var r := PushSize(arch, variant, line);
      if r.Err? {
        return Some(r.error);
      }
      if current.None? {
        return Some(AttributeError);
      }
      current.value.size := current.value.size + r.value;
      Track(line, Clear);
      e := None;
    }

    /**
     * A `sub` on the stack pointer: the function grows by the clamped
     * immediate; an ignored immediate changes nothing and is not counted.
     */
    method SubOp(line: string, current: Option<Function>) returns (e: Option<Error>)
      requires Valid()
      modifies Opt(current)`size, table.statistic
      ensures Valid()
      ensures SubEffect(line, current, e, old(SizeOf(current)), old(CallsOf(current)), old(DynamicOf(current)),
                  old(table.functions), old(table.statistic.history))
    {
      var r := SubAmount(arch, line);
      if r.Err? {
        return Some(r.error);
      }
      if r.value.None? {
        return None;
      }
      if current.None? {
        return Some(AttributeError);
      }
      current.value.size := current.value.size + r.value.value;
      Track(line, Clear);
      e := None;
    }

    /** A dynamic stack operation: the function is marked dynamic. */
    method DynamicOp(line: string, current: Option<Function>) returns (e: Option<Error>)
      requires Valid()
      modifies Opt(current)`dynamic, table.statistic
      ensures Valid()
      ensures DynamicEffect(line, current, e, old(SizeOf(current)), old(CallsOf(current)), old(DynamicOf(current)),
                  old(table.functions), old(table.statistic.history))
    {
      if current.None? {
        return Some(AttributeError);
      }
      current.value.dynamic := true;
      Track(line, Weak);
      e := None;
    }

    /** Every function of the table is one it had before or a new one. */
    twostate predicate Grown()
      reads table
    {
      && old(table.functions) <= table.functions
      && forall f | f in table.functions :: f in old(table.functions) || fresh(f)
    }

    /** The functions new to the table since `before` are not visited. */
    predicate Quiet(before: seq<Function>)
      reads table, Members(table.functions)`visited
    {
      forall f | f in table.functions && f !in before :: !f.visited
    }

    /**
     * The table after `find`, and `append` of a new function when the
     * address is not in the table `before`: unchanged with `f` the function
     * found, or with the new function `f` at its end.
     */
    predicate Resolved(before: seq<Function>, address: int, name: string, section: Option<string>, file: Option<string>, f: Function)
      reads table, f`section, f`file
    {
      match FindIn(before, address)
      case Some(g) => f == g && table.functions == before
      case None => && table.functions == before + [f]
                   && f.address == address && f.name == FunctionName(address, Some(name))
                   && f.section == section && f.file == file
    }

    /** `find`, and `append` of a new function when the address is not in the table; `found` tells which. */
    method Resolve(address: int, name: string, section: Option<string>, file: Option<string>)
      returns (f: Function, found: bool)
      requires Valid()
      modifies table
      ensures Valid() && Grown() && FindIn(table.functions, address) == Some(f)
      ensures found == old(FindIn(table.functions, address)).Some? && Resolved(old(table.functions), address, name, section, file, f)
      ensures !found ==> f.calls == [] && f.callers == [] && f.size == 0 && !f.dynamic && !f.visited
      ensures Quiet(old(table.functions))
    {
      var hit := FindIn(table.functions, address);
      if hit.Some? {
        return hit.value, true;
      }
      f := new Function(address, Some(name), section, file);
      ghost var live := Members(table.functions);
      LinkedGrow(live, former, f);
      f := table.Append(f);
      found := false;
      assert Members(table.functions) == live + {f};
      assert Locate(table.functions, address) == |table.functions| - 1 by {
        LocateLast(old(table.functions), f, address);
      }
      assert Unique(table.functions) by {
        var fs := table.functions;
        forall i, j | 0 <= i < |fs| && 0 <= j < |fs| && fs[i].address == fs[j].address ensures i == j {
          if i < |fs| - 1 && j < |fs| - 1 {
            assert old(table.functions)[i] == fs[i] && old(table.functions)[j] == fs[j];
          }
        }
      }
    }

    /** One more call edge from `c` to `f`: `f` at the end of the calls of `c`, `c` at the end of the callers of `f`. */
    method Link(c: Function, f: Function)
      requires Valid() && c in table.functions && f in table.functions
      modifies c`calls, f`callers
      ensures Valid()
      ensures c.calls == old(c.calls) + [f] && f.callers == old(f.callers) + [c]
    {
      c.calls := c.calls + [f];
      f.callers := f.callers + [c];
      Added(Edge(c, f));
    }

    /** An edge added at the end of the calls of its caller and of the callers of its callee keeps the edges consistent. */
    twostate lemma Added(e: Edge)
      requires old(Linked(Members(table.functions), former)) && e.caller in table.functions && e.callee in table.functions
      requires table.functions == old(table.functions) && former == old(former)
      requires e.caller.calls == old(e.caller.calls) + [e.callee] && e.callee.callers == old(e.callee.callers) + [e.caller]
      requires forall x | x in Members(table.functions) + former ::
        (x != e.caller ==> x.calls == old(x.calls)) && (x != e.callee ==> x.callers == old(x.callers))
      ensures Linked(Members(table.functions), former)
    {
      var live, gone, c, f := Members(table.functions), former, e.caller, e.callee;
      forall x: Function, y: Function | x in live + gone && y in live ensures multiset(x.calls)[y] == multiset(y.callers)[x] {
        assert old(multiset(x.calls)[y] == multiset(y.callers)[x]);
      }
      forall x: Function, i | x in live + gone && 0 <= i < |x.calls| ensures x.calls[i] in live {
        if x == c && i == |x.calls| - 1 {
        } else {
          assert old(x.calls[i] in live);
        }
      }
      forall y: Function, i | y in live && 0 <= i < |y.callers| ensures y.callers[i] in live + gone {
        if y == f && i == |y.callers| - 1 {
        } else {
          assert old(y.callers[i] in live + gone);
        }
      }
    }

    /**
     * A function label: a function already in the table only takes the
     * file and section of the label, keeping its name and size; otherwise
     * a new function is appended. Either way it is marked visited.
     */
    method Enter(address: int, name: string, section: Option<string>, file: Option<string>) returns (f: Function)
      requires Valid()
      modifies table, Members(table.functions)`file, Members(table.functions)`section, Members(table.functions)`visited
      ensures Valid() && Grown() && f.visited && f.file == file && f.section == section
      ensures FindIn(table.functions, address) == Some(f) && Resolved(old(table.functions), address, name, section, file, f)
      ensures old(FindIn(table.functions, address)).Some? ==> f.size == old(f.size)
      ensures old(FindIn(table.functions, address)).None? ==> f.calls == [] && f.callers == [] && f.size == 0 && !f.dynamic
      ensures Unentered(old(table.functions), Some(f)) && Untouched(old(table.functions), None)
    {
      var found;
      f, found := Resolve(address, name, section, file);
      Relabel(f, found, section, file);
    }

    /** The file and section of a label given to the function `f` it found, and `f` marked visited. */
    static method Relabel(f: Function, found: bool, section: Option<string>, file: Option<string>)
      requires !found ==> f.file == file && f.section == section
      modifies f`file, f`section, f`visited
      ensures f.visited && f.file == file && f.section == section
    {
      if found {
        f.file := file;
        f.section := section;
      }
      f.visited := true;
    }

    /**
     * A direct call: the callee is found by address or appended; the edge
     * is added at most once per callee address; the package then adds the
     * stack size of the call and counts the operation.
     */
    method CallOp(line: string, callSize: string -> Result<int>, current: Option<Function>) returns (e: Option<Error>)
      requires Valid() && (current.Some? ==> current.value in table.functions)
      modifies table, table.statistic, Opt(current)`size, Opt(current)`calls, Members(table.functions)`callers
      ensures Valid() && Grown()
      ensures CallEffect(line, callSize, current, e, old(SizeOf(current)), old(CallsOf(current)),
                         old(table.functions), old(table.statistic.history))
      ensures CallTarget(arch, line).Ok? ==>
        var address := CallTarget(arch, line).value.0;
        && FindIn(table.functions, address).Some?
        && Resolved(old(table.functions), address, CallTarget(arch, line).value.1, None, DefaultFile(variant), FindIn(table.functions, address).value)
      ensures Quiet(old(table.functions))
    {
      var target := CallTarget(arch, line);
      if target.Err? {
        return Some(target.error);
      }
      if current.None? {
        ghost var fs := table.functions;
        var callee, found := Resolve(target.value.0, target.value.1, None, DefaultFile(variant));
        assert table.functions == fs + (if FindIn(fs, target.value.0).None? then [callee] else []);
        return Some(AttributeError);
      }
      var callee;
      e, callee := CallTo(target.value.0, target.value.1, line, callSize, current.value);
    }

    /** A direct call from `c` to `address`, the callee named `name` when it is new. */
    method CallTo(address: int, name: string, line: string, callSize: string -> Result<int>, c: Function)
      returns (e: Option<Error>, callee: Function)
      requires Valid() && c in table.functions
      modifies table, table.statistic, c`size, c`calls, Members(table.functions)`callers
      ensures Valid() && Grown()
      ensures FindIn(table.functions, address) == Some(callee)
      ensures Resolved(old(table.functions), address, name, None, DefaultFile(variant), callee)
      ensures callee in old(table.functions) || !callee.visited
      ensures Called(address, line, callSize, Some(c), e, old(c.size), old(c.calls), old(table.functions), old(table.statistic.history))
    {
      ghost var fs, size, calls, history := table.functions, c.size, c.calls, table.statistic.history;
      if FindIn(table.functions, address).None? {
        Uncalled(table.functions, former, c, address);
      }
      var found;
      callee, found := Resolve(address, name, None, DefaultFile(variant));
      assert callee.address == address && c.size == size && c.calls == calls && table.statistic.history == history;
      e := Attach(c, callee, line, callSize, fs);
    }

    /** A call whose callee was resolved, connected and charged is `Called`. */
    lemma CalledBy(address: int, line: string, callSize: string -> Result<int>, c: Function, callee: Function, e: Option<Error>,
                   size: int, calls: seq<Function>, callers: seq<Function>, fs: seq<Function>, history: seq<(string, StackImpact)>)
      requires FindIn(table.functions, address) == Some(callee)
      requires table.functions == fs + (if FindIn(fs, address).None? then [callee] else [])
      requires Connected(c, callee, calls, callers)
      requires Charged(line, callSize, c, e, size, history)
      ensures Called(address, line, callSize, Some(c), e, size, calls, fs, history)
    {
    }

    /** The edge from `c` to `callee` unless `c` already calls a function of that address, then what the call costs `c`. */
    method Attach(c: Function, callee: Function, line: string, callSize: string -> Result<int>, ghost fs: seq<Function>)
      returns (e: Option<Error>)
      requires Valid() && c in table.functions && callee in table.functions
      requires FindIn(table.functions, callee.address) == Some(callee)
      requires table.functions == fs + (if FindIn(fs, callee.address).None? then [callee] else [])
      modifies table.statistic, c`size, c`calls, callee`callers
      ensures Valid() && Connected(c, callee, old(c.calls), old(callee.callers))
      ensures Called(callee.address, line, callSize, Some(c), e, old(c.size), old(c.calls), fs, old(table.statistic.history))
    {
      ghost var size, calls, callers, history := c.size, c.calls, callee.callers, table.statistic.history;
      Connect(c, callee);
      e := Charge(c, line, callSize);
      CalledBy(callee.address, line, callSize, c, callee, e, size, calls, callers, fs, history);
    }

    /**
     * The edge from `c` to `callee` added to the calls `calls` of `c` and
     * the callers `callers` of `callee`, unless `calls` already holds a
     * function of the callee's address.
     */
    predicate Connected(c: Function, callee: Function, calls: seq<Function>, callers: seq<Function>)
      reads c`calls, callee`callers
    {
      var edge := FindIn(calls, callee.address).None?;
      && c.calls == calls + (if edge then [callee] else [])
      && callee.callers == callers + (if edge then [c] else [])
    }

    /**
     * What a call costs its caller, from its size `size` and the records
     * `history`: the package adds the stack size of the call and counts
     * the operation, or fails when that size cannot be had; the older
     * script does neither.
     */
    ghost predicate Charged(line: string, callSize: string -> Result<int>, c: Function, e: Option<Error>,
                      size: int, history: seq<(string, StackImpact)>)
      reads c`size, table.statistic
    {
      && e == (if variant == Package && callSize(line).Err? then Some(callSize(line).error) else None)
      && (if variant == Package && callSize(line).Ok? then
            && c.size == size + callSize(line).value
            && table.statistic.history == history + Tracked(line, Clear)
          else c.size == size && table.statistic.history == history)
    }

    /** The edge from `c` to `callee`, unless `c` already calls a function of that address. */
    method Connect(c: Function, callee: Function)
      requires Valid() && c in table.functions && callee in table.functions
      modifies c`calls, callee`callers
      ensures Valid() && Connected(c, callee, old(c.calls), old(callee.callers))
    {
      if FindIn(c.calls, callee.address).None? {
        Link(c, callee);
      }
    }

    /** The cost of a call to its caller `c`. */
    method Charge(c: Function, line: string, callSize: string -> Result<int>) returns (e: Option<Error>)
      requires Valid()
      modifies table.statistic, c`size
      ensures Valid() && Charged(line, callSize, c, e, old(c.size), old(table.statistic.history))
    {
      e := None;
      if variant == Package {
        var size := callSize(line);
        if size.Err? {
          return Some(size.error);
        }
        c.size := c.size + size.value;
        Track(line, Clear);
      }
    }

    /** A call through a pointer: an edge to the sentinel, added every time, and the operation counted. */
    method PointerOp(line: string, current: Option<Function>) returns (e: Option<Error>)
      requires Valid() && (current.Some? ==> current.value in table.functions)
      modifies table.statistic, Opt(current)`calls, Members(table.functions[..1])`callers
      ensures Valid()
      ensures FindIn(table.functions, 0) == Some(table.functions[0])
      ensures PointerEffect(line, current, e, old(SizeOf(current)), old(CallsOf(current)), old(DynamicOf(current)),
                  old(table.functions), old(table.statistic.history))
      ensures current.Some? ==> table.functions[0].callers == old(table.functions[0].callers) + [current.value]
    {
      var pointer := FindIn(table.functions, 0);
      assert Locate(table.functions, 0) == 0;
      if current.None? {
        return Some(AttributeError);
      }
      Link(current.value, pointer.value);
      Track(line, Weak);
      e := None;
    }

    /**
     * The effect of an instruction line on the current function and the
     * table, from the size `size`, the calls `calls` and the dynamic mark
     * `dynamic` of the current function, the functions `fs` of the table
     * and the records `history` before the line, by the branch the line
     * takes. A missing current function is an AttributeError once the
     * operand has been read; a failed read is the error of that read.
     */
    ghost predicate Effect(line: string, classify: string -> Category, callSize: string -> Result<int>,
                           current: Option<Function>, e: Option<Error>, size: int, calls: seq<Function>,
                           dynamic: bool, fs: seq<Function>, history: seq<(string, StackImpact)>)
      reads table, table.statistic, Opt(current)`size, Opt(current)`calls, Opt(current)`dynamic
    {
      match Categorise(arch, variant, classify, line)
      case Push => PushEffect(line, current, e, size, calls, dynamic, fs, history)
      case Sub => SubEffect(line, current, e, size, calls, dynamic, fs, history)
      case Dynamic => DynamicEffect(line, current, e, size, calls, dynamic, fs, history)
      case Call => CallEffect(line, callSize, current, e, size, calls, fs, history) && DynamicOf(current) == dynamic
      case Pointer => PointerEffect(line, current, e, size, calls, dynamic, fs, history)
      case Potential => Counted(line, StackImpact.Potential, current, e, size, calls, dynamic, fs, history)
      case Other => Counted(line, No, current, e, size, calls, dynamic, fs, history)
    }

    /** A push grows the current function by the push size, and the operation is counted. */
    ghost predicate PushEffect(line: string, current: Option<Function>, e: Option<Error>, size: int, calls: seq<Function>,
                               dynamic: bool, fs: seq<Function>, history: seq<(string, StackImpact)>)
      reads table, table.statistic, Opt(current)`size, Opt(current)`calls, Opt(current)`dynamic
    {
      var r := PushSize(arch, variant, line);
      && e == (if r.Err? then Some(r.error) else if current.None? then Some(AttributeError) else None)
      && table.functions == fs && CallsOf(current) == calls && DynamicOf(current) == dynamic
      && SizeOf(current) == size + (if e.None? then r.value else 0)
      && table.statistic.history == history + (if e.None? then Tracked(line, Clear) else [])
    }

    /** A `sub` grows the current function by the clamped immediate; an ignored immediate changes nothing. */
    ghost predicate SubEffect(line: string, current: Option<Function>, e: Option<Error>, size: int, calls: seq<Function>,
                              dynamic: bool, fs: seq<Function>, history: seq<(string, StackImpact)>)
      reads table, table.statistic, Opt(current)`size, Opt(current)`calls, Opt(current)`dynamic
    {
      var r := SubAmount(arch, line);
      var grows := r.Ok? && r.value.Some? && current.Some?;
      && e == (if r.Err? then Some(r.error) else if r.value.Some? && current.None? then Some(AttributeError) else None)
      && table.functions == fs && CallsOf(current) == calls && DynamicOf(current) == dynamic
      && SizeOf(current) == size + (if grows then r.value.value else 0)
      && table.statistic.history == history + (if grows then Tracked(line, Clear) else [])
    }

    /** A dynamic stack operation marks the current function dynamic, and the operation is counted. */
    ghost predicate DynamicEffect(line: string, current: Option<Function>, e: Option<Error>, size: int, calls: seq<Function>,
                                  dynamic: bool, fs: seq<Function>, history: seq<(string, StackImpact)>)
      reads table, table.statistic, Opt(current)`size, Opt(current)`calls, Opt(current)`dynamic
    {
      && e == (if current.None? then Some(AttributeError) else None)
      && table.functions == fs && CallsOf(current) == calls && SizeOf(current) == size
      && DynamicOf(current) == (current.Some? || dynamic)
      && table.statistic.history == history + (if e.None? then Tracked(line, Weak) else [])
    }

    /**
     * A direct call: a failed read of the target changes nothing;
     * otherwise the callee is found or appended, as `Called` says.
     */
    ghost predicate CallEffect(line: string, callSize: string -> Result<int>, current: Option<Function>, e: Option<Error>,
                               size: int, calls: seq<Function>, fs: seq<Function>, history: seq<(string, StackImpact)>)
      reads table, table.statistic, Opt(current)`size, Opt(current)`calls
    {
      match CallTarget(arch, line)
      case Err(error) =>
        && e == Some(error) && table.functions == fs && table.statistic.history == history
        && SizeOf(current) == size && CallsOf(current) == calls
      case Ok(target) => Called(target.0, line, callSize, current, e, size, calls, fs, history)
    }

    /**
     * A direct call to `address`: the callee is found or appended, and the
     * current function, when there is one, gains the edge once per callee
     * address and, in the package, the stack size of the call.
     */
    ghost predicate Called(address: int, line: string, callSize: string -> Result<int>, current: Option<Function>, e: Option<Error>,
                           size: int, calls: seq<Function>, fs: seq<Function>, history: seq<(string, StackImpact)>)
      reads table, table.statistic, Opt(current)`size, Opt(current)`calls
    {
      var charged := variant == Package && callSize(line).Ok?;
      var h := table.statistic.history;
      && FindIn(table.functions, address).Some?
      && var callee := FindIn(table.functions, address).value;
      && table.functions == fs + (if FindIn(fs, address).None? then [callee] else [])
      && (current.None? ==> e == Some(AttributeError) && h == history)
      && (current.Some? ==>
            && CallsOf(current) == calls + (if FindIn(calls, address).None? then [callee] else [])
            && e == (if variant == Package && callSize(line).Err? then Some(callSize(line).error) else None)
            && SizeOf(current) == size + (if charged then callSize(line).value else 0)
            && h == history + (if charged then Tracked(line, Clear) else []))
    }

    /** A call through a pointer adds an edge to the sentinel every time, and the operation is counted. */
    ghost predicate PointerEffect(line: string, current: Option<Function>, e: Option<Error>, size: int, calls: seq<Function>,
                                  dynamic: bool, fs: seq<Function>, history: seq<(string, StackImpact)>)
      reads table, table.statistic, Opt(current)`size, Opt(current)`calls, Opt(current)`dynamic
    {
      && e == (if current.None? then Some(AttributeError) else None)
      && table.functions == fs && SizeOf(current) == size && DynamicOf(current) == dynamic
      && (current.Some? ==> |fs| > 0 && CallsOf(current) == calls + [fs[0]])
      && table.statistic.history == history + (if e.None? then Tracked(line, Weak) else [])
    }

    /** A line that only counts its operation with the impact `impact`. */
    ghost predicate Counted(line: string, impact: StackImpact, current: Option<Function>, e: Option<Error>, size: int,
                            calls: seq<Function>, dynamic: bool, fs: seq<Function>, history: seq<(string, StackImpact)>)
      reads table, table.statistic, Opt(current)`size, Opt(current)`calls, Opt(current)`dynamic
    {
      && e.None? && table.functions == fs
      && SizeOf(current) == size && CallsOf(current) == calls && DynamicOf(current) == dynamic
      && table.statistic.history == history + Tracked(line, impact)
    }

    /** Every function of `fs` but `current` keeps its size, its dynamic mark and its calls. */
    twostate predicate Untouched(fs: seq<Function>, new current: Option<Function>)
      reads Members(fs)`size, Members(fs)`dynamic, Members(fs)`calls
    {
      forall g | g in fs && g !in Opt(current) :: g.size == old(g.size) && g.dynamic == old(g.dynamic) && g.calls == old(g.calls)
    }

    /**
     * An instruction line: its effect, by the branch of the cascade it
     * takes; no function but `current` changes its size, dynamic mark or
     * calls, and none its file, section or visited mark.
     */
    method Instruction(line: string, classify: string -> Category, callSize: string -> Result<int>, current: Option<Function>)
      returns (e: Option<Error>)
      requires Valid() && (current.Some? ==> current.value in table.functions)
      modifies table, table.statistic, Opt(current)`size, Opt(current)`dynamic
      modifies Opt(current)`calls, Members(table.functions)`callers
      ensures Valid() && Grown()
      ensures Effect(line, classify, callSize, current, e, old(SizeOf(current)), old(CallsOf(current)),
                     old(DynamicOf(current)), old(table.functions), old(table.statistic.history))
      ensures Untouched(old(table.functions), current) && Unentered(old(table.functions), None)
      ensures Quiet(old(table.functions))
    {
      e := Cascade(line, classify, callSize, current);
    }

    /** The branch of the cascade an instruction line takes, and its effect. */
    method Cascade(line: string, classify: string -> Category, callSize: string -> Result<int>, current: Option<Function>)
      returns (e: Option<Error>)
      requires Valid() && (current.Some? ==> current.value in table.functions)
      modifies table, table.statistic, Opt(current)`size, Opt(current)`dynamic
      modifies Opt(current)`calls, Members(table.functions)`callers
      ensures Valid() && Grown()
      ensures Effect(line, classify, callSize, current, e, old(SizeOf(current)), old(CallsOf(current)),
                     old(DynamicOf(current)), old(table.functions), old(table.statistic.history))
      ensures Quiet(old(table.functions))
    {
      ghost var size, calls, dynamic := SizeOf(current), CallsOf(current), DynamicOf(current);
      ghost var fs, history := table.functions, table.statistic.history;
      match Categorise(arch, variant, classify, line)
      case Push =>
        e := PushOp(line, current);
        assert Effect(line, classify, callSize, current, e, size, calls, dynamic, fs, history);
      case Sub =>
        e := SubOp(line, current);
        assert Effect(line, classify, callSize, current, e, size, calls, dynamic, fs, history);
      case Dynamic =>
        e := DynamicOp(line, current);
        assert Effect(line, classify, callSize, current, e, size, calls, dynamic, fs, history);
      case Call =>
        e := CallOp(line, callSize, current);
        assert Effect(line, classify, callSize, current, e, size, calls, dynamic, fs, history);
      case Pointer =>
        e := PointerOp(line, current);
        assert Effect(line, classify, callSize, current, e, size, calls, dynamic, fs, history);
      case Potential =>
        Track(line, StackImpact.Potential); e := None;
        assert Effect(line, classify, callSize, current, e, size, calls, dynamic, fs, history);
      case Other =>
        Track(line, No); e := None;
        assert Effect(line, classify, callSize, current, e, size, calls, dynamic, fs, history);
    }

    /**
     * The instruction cascade for a line whose effect the caller does not
     * need: the table stays valid, only grows, and gains no visited
     * function; only `current` changes its size, dynamic mark and calls,
     * no function its file, section or visited mark, and the functions
     * `was` visited and the addresses `labelled` present stay so.
     */
    method Analyse(line: string, classify: string -> Category, callSize: string -> Result<int>, current: Option<Function>,
                   ghost was: set<Function>, ghost labelled: set<int>)
      returns (e: Option<Error>)
      requires Valid() && (current.Some? ==> current.value in table.functions)
      modifies table, table.statistic, Opt(current)`size, Opt(current)`dynamic
      modifies Opt(current)`calls, Members(table.functions)`callers
      ensures Valid() && Grown() && Quiet(old(table.functions))
      ensures Untouched(old(table.functions), current) && Unentered(old(table.functions), None)
      ensures old(Visits(was, labelled)) ==> Visits(was, labelled)
      ensures old(Present(labelled)) ==> Present(labelled)
    {
      ghost var fs := table.functions;
      e := Instruction(line, classify, callSize, current);
      FoundStays(fs, table.functions);
    }

    /** The address a function label names, when `get_function` can read it. */
    function Named(line: string): set<int> {
      match GetFunction(line)
      case Ok(fn) => {fn.0}
      case Err(_) => {}
    }

    /** The function of the cursor, when it has one, is in the table. */
    predicate Holds(cur: Cursor)
      reads table
    {
      cur.current.Some? ==> cur.current.value in table.functions
    }

    /**
     * A line the cascade of the variant analyses only as an instruction:
     * in the package neither a file-format line, a section, a function
     * label nor empty; in the older script neither a section nor a
     * function label.
     */
    predicate Plain(line: string) {
      if variant == Package then !IsFileFormat(line) && !IsSection(line) && !IsFunctionLabel(line) && line != ""
      else !IsSection(line) && !IsFunctionLabel(line)
    }

    /**
     * The address a line labels: a function label that the cascade reaches
     * (the package takes file-format lines first, both take section lines
     * first) and from which `get_function` reads an address.
     */
    function LabelOf(line: string): Option<int> {
      if (variant == Package && IsFileFormat(line)) || IsSection(line) || !IsFunctionLabel(line) then None
      else match GetFunction(line)
        case Ok(fn) => Some(fn.0)
        case Err(_) => None
    }

    /**
     * A function label: `get_function` reads the address and the name,
     * and the function is entered with the file and section of the cursor.
     */
    method Label(line: string, cur: Cursor) returns (next: Cursor, e: Option<Error>)
      requires Valid() && Holds(cur)
      modifies table, Members(table.functions)`file, Members(table.functions)`section, Members(table.functions)`visited
      ensures Valid() && Grown() && Holds(next)
      ensures GetFunction(line).Err? ==> e == Some(GetFunction(line).error) && next == cur && table.functions == old(table.functions)
      ensures GetFunction(line).Ok? ==>
        && e.None? && next.file == cur.file && next.section == cur.section && next.current.Some?
        && next.current.value.address == GetFunction(line).value.0
        && next.current.value.file == cur.file && next.current.value.section == cur.section
      ensures Unentered(old(table.functions), if GetFunction(line).Ok? then next.current else None)
      ensures Untouched(old(table.functions), None)
      ensures Visits(old(VisitedIn(table.functions)), Named(line)) && Present(Named(line))
    {
      var named := GetFunction(line);
      if named.Err? {
        return cur, Some(named.error);
      }
      var f := Enter(named.value.0, named.value.1, cur.section, cur.file);
      next, e := cur.(current := Some(f)), None;
    }

    /** Every function of `fs` but `entered` keeps its file, its section and its visited mark. */
    twostate predicate Unentered(fs: seq<Function>, new entered: Option<Function>)
      reads Members(fs)`file, Members(fs)`section, Members(fs)`visited
    {
      forall g | g in fs && g !in Opt(entered) :: g.file == old(g.file) && g.section == old(g.section) && g.visited == old(g.visited)
    }

    /**
     * The functions visited now: those of `was`, visited before, and any
     * function at the address `labelled`.
     */
    predicate Visits(was: set<Function>, labelled: set<int>)
      reads table, was, Members(table.functions)`visited
    {
      && (forall f | f in was :: f.visited)
      && (forall f | f in table.functions && f.visited :: f in was || f.address in labelled)
    }

    /** Each labelled address is found in the table, at a visited function. */
    predicate Present(labelled: set<int>)
      reads table, Members(table.functions)`visited
    {
      forall address | address in labelled :: FindIn(table.functions, address).Some? && FindIn(table.functions, address).value.visited
    }

    /**
     * One line of the listing in the package: a file-format line sets the
     * file and a section line the section, and neither is analysed
     * further; a function label enters its function and is then analysed
     * as an instruction; an empty line is skipped; any other line is an
     * instruction.
     */
    method PackageLine(line: string, classify: string -> Category, callSize: string -> Result<int>, cur: Cursor)
      returns (next: Cursor, e: Option<Error>)
      requires variant == Package && Valid() && Holds(cur)
      modifies table, table.statistic, Members(table.functions)`size, Members(table.functions)`dynamic
      modifies Members(table.functions)`calls, Members(table.functions)`callers
      modifies Members(table.functions)`file, Members(table.functions)`section, Members(table.functions)`visited
      ensures Valid() && Grown() && Holds(next)
      ensures IsFileFormat(line) ==> e.None? && next == cur.(file := Some(FileOf(line)))
      ensures !IsFileFormat(line) && IsSection(line) ==> e.None? && next == cur.(section := Some(GetSection(line)))
      ensures !IsFileFormat(line) && !IsSection(line) && IsFunctionLabel(line) ==>
        && (GetFunction(line).Err? ==> e == Some(GetFunction(line).error))
        && (GetFunction(line).Ok? ==> next.file == cur.file && next.section == cur.section && next.current.Some?
                                      && next.current.value.address == GetFunction(line).value.0
                                      && next.current.value.file == cur.file && next.current.value.section == cur.section)
      ensures !IsFileFormat(line) && !IsSection(line) && !IsFunctionLabel(line) ==> next == cur
      ensures IsFileFormat(line) || IsSection(line) || (!IsFunctionLabel(line) && line == "") ==>
        e.None? && table.functions == old(table.functions) && table.statistic.history == old(table.statistic.history)
      ensures Plain(line) ==>
        && next.current == cur.current
        && Effect(line, classify, callSize, cur.current, e, old(SizeOf(cur.current)), old(CallsOf(cur.current)),
                  old(DynamicOf(cur.current)), old(table.functions), old(table.statistic.history))
      ensures Untouched(old(table.functions), next.current)
      ensures Unentered(old(table.functions), if LabelOf(line).Some? then next.current else None)
      ensures e.None? ==> Visits(old(VisitedIn(table.functions)), Addresses(LabelOf(line))) && Present(Addresses(LabelOf(line)))
    {
      if IsFileFormat(line) {
        return cur.(file := Some(FileOf(line))), None;
      }
      if IsSection(line) {
        return cur.(section := Some(GetSection(line))), None;
      }
      if IsFunctionLabel(line) {
        next, e := LabelLine(line, classify, callSize, cur);
      } else if |line| == 0 {
        return cur, None;
      } else {
        next := cur;
        e := Instruction(line, classify, callSize, cur.current);
      }
    }

    /** A function label in the package: the function is entered, and the line is then analysed as an instruction. */
    method LabelLine(line: string, classify: string -> Category, callSize: string -> Result<int>, cur: Cursor)
      returns (next: Cursor, e: Option<Error>)
      requires Valid() && Holds(cur)
      modifies table, table.statistic, Members(table.functions)`size, Members(table.functions)`dynamic
      modifies Members(table.functions)`calls, Members(table.functions)`callers
      modifies Members(table.functions)`file, Members(table.functions)`section, Members(table.functions)`visited
      ensures Valid() && Grown() && Holds(next)
      ensures GetFunction(line).Err? ==> e == Some(GetFunction(line).error)
      ensures GetFunction(line).Ok? ==> next.file == cur.file && next.section == cur.section && next.current.Some?
                                        && next.current.value.address == GetFunction(line).value.0
                                        && next.current.value.file == cur.file && next.current.value.section == cur.section
      ensures Untouched(old(table.functions), next.current)
      ensures Unentered(old(table.functions), if GetFunction(line).Ok? then next.current else None)
      ensures e.None? ==> Visits(old(VisitedIn(table.functions)), Named(line)) && Present(Named(line))
    {
      next, e := Label(line, cur);
      if e.Some? {
        return;
      }
      e := Analyse(line, classify, callSize, next.current, old(VisitedIn(table.functions)), Named(line));
    }

    /**
     * One line of the listing in the older script: a file-format line sets
     * the file and is analysed further, by `LegacyCascade`.
     */
    method LegacyLine(line: string, classify: string -> Category, callSize: string -> Result<int>, cur: Cursor)
      returns (next: Cursor, e: Option<Error>)
      requires variant == Legacy && Valid() && Holds(cur)
      modifies table, table.statistic, Members(table.functions)`size, Members(table.functions)`dynamic
      modifies Members(table.functions)`calls, Members(table.functions)`callers
      modifies Members(table.functions)`file, Members(table.functions)`section, Members(table.functions)`visited
      ensures Valid() && Grown() && Holds(next)
      ensures next.file == (if IsFileFormat(line) then Some(FileOf(line)) else cur.file)
      ensures IsSection(line) ==>
        && e.None? && next.section == Some(GetSection(line)) && next.current == cur.current
        && table.functions == old(table.functions)
      ensures !IsSection(line) && IsFunctionLabel(line) ==>
        && (GetFunction(line).Err? ==> e == Some(GetFunction(line).error))
        && (GetFunction(line).Ok? ==> next.section == cur.section && next.current.Some?
                                      && next.current.value.address == GetFunction(line).value.0
                                      && next.current.value.file == next.file && next.current.value.section == next.section)
      ensures !IsSection(line) && !IsFunctionLabel(line) ==> next.section == cur.section && next.current == cur.current
      ensures Plain(line) ==>
        && next.current == cur.current
        && Effect(line, classify, callSize, cur.current, e, old(SizeOf(cur.current)), old(CallsOf(cur.current)),
                  old(DynamicOf(cur.current)), old(table.functions), old(table.statistic.history))
      ensures Untouched(old(table.functions), next.current)
      ensures Unentered(old(table.functions), if LabelOf(line).Some? then next.current else None)
      ensures e.None? ==> Visits(old(VisitedIn(table.functions)), Addresses(LabelOf(line))) && Present(Addresses(LabelOf(line)))
    {
      next := cur;
      if IsFileFormat(line) {
        next := next.(file := Some(FileOf(line)));
      }
      next, e := LegacyCascade(line, classify, callSize, next);
    }

    /**
     * The rest of a line in the older script: a section line sets the
     * section, a function label enters its function, and any other line,
     * empty ones included, is an instruction.
     */
    method LegacyCascade(line: string, classify: string -> Category, callSize: string -> Result<int>, cur: Cursor)
      returns (next: Cursor, e: Option<Error>)
      requires variant == Legacy && Valid() && Holds(cur)
      modifies table, table.statistic, Members(table.functions)`size, Members(table.functions)`dynamic
      modifies Members(table.functions)`calls, Members(table.functions)`callers
      modifies Members(table.functions)`file, Members(table.functions)`section, Members(table.functions)`visited
      ensures Valid() && Grown() && Holds(next) && next.file == cur.file
      ensures IsSection(line) ==>
        && e.None? && next.section == Some(GetSection(line)) && next.current == cur.current
        && table.functions == old(table.functions)
      ensures !IsSection(line) && IsFunctionLabel(line) ==>
        && (GetFunction(line).Err? ==> e == Some(GetFunction(line).error))
        && (GetFunction(line).Ok? ==> next.section == cur.section && next.current.Some?
                                      && next.current.value.address == GetFunction(line).value.0
                                      && next.current.value.file == cur.file && next.current.value.section == cur.section)
      ensures !IsSection(line) && !IsFunctionLabel(line) ==> next.section == cur.section && next.current == cur.current
      ensures Plain(line) ==>
        && next.current == cur.current
        && Effect(line, classify, callSize, cur.current, e, old(SizeOf(cur.current)), old(CallsOf(cur.current)),
                  old(DynamicOf(cur.current)), old(table.functions), old(table.statistic.history))
      ensures Untouched(old(table.functions), next.current)
      ensures Unentered(old(table.functions), if LabelOf(line).Some? then next.current else None)
      ensures e.None? ==> Visits(old(VisitedIn(table.functions)), Addresses(LabelOf(line))) && Present(Addresses(LabelOf(line)))
    {
      if IsSection(line) {
        return cur.(section := Some(GetSection(line))), None;
      }
      if IsFunctionLabel(line) {
        next, e := Label(line, cur);
        return;
      }
      next := cur;
      e := Instruction(line, classify, callSize, cur.current);
    }

    /**
     * The addresses the lines of `listing` label, each line taken without
     * its last character (the newline).
     */
    function Labelled(listing: seq<string>): set<int> {
      if |listing| == 0 then {}
      else Labelled(listing[..|listing| - 1]) + Addresses(LabelOf(Slice(Last(listing), 0, 1)))
    }

    /** One line, through the cascade of the variant. */
    method Step(line: string, classify: string -> Category, callSize: string -> Result<int>, cur: Cursor)
      returns (next: Cursor, e: Option<Error>)
      requires Valid() && Holds(cur)
      modifies table, table.statistic, Members(table.functions)`size, Members(table.functions)`dynamic
      modifies Members(table.functions)`calls, Members(table.functions)`callers
      modifies Members(table.functions)`file, Members(table.functions)`section, Members(table.functions)`visited
      ensures Valid() && Grown() && Holds(next)
      ensures Plain(line) ==>
        && next.current == cur.current
        && Effect(line, classify, callSize, cur.current, e, old(SizeOf(cur.current)), old(CallsOf(cur.current)),
                  old(DynamicOf(cur.current)), old(table.functions), old(table.statistic.history))
      ensures LabelOf(line).Some? ==>
        && next.current.Some? && next.current.value.address == LabelOf(line).value
        && next.current.value.file == next.file && next.current.value.section == next.section
      ensures Untouched(old(table.functions), next.current)
      ensures Unentered(old(table.functions), if LabelOf(line).Some? then next.current else None)
      ensures e.None? ==> Visits(old(VisitedIn(table.functions)), Addresses(LabelOf(line))) && Present(Addresses(LabelOf(line)))
    {
      if variant == Package {
        next, e := PackageLine(line, classify, callSize, cur);
      } else {
        next, e := LegacyLine(line, classify, callSize, cur);
      }
    }

    /**
     * The loop of `parse` over the listing: each line without its last
     * character (the newline) goes through the cascade of the variant; an
     * error ends the loop. Every function a line labels is then in the
     * table and visited, and every visited function was visited before or
     * is labelled by a line.
     */
    method Scan(listing: seq<string>, classify: string -> Category, callSize: string -> Result<int>)
      returns (e: Option<Error>)
      requires Valid()
      modifies table, table.statistic, Members(table.functions)`size, Members(table.functions)`dynamic
      modifies Members(table.functions)`calls, Members(table.functions)`callers
      modifies Members(table.functions)`file, Members(table.functions)`section, Members(table.functions)`visited
      ensures Valid() && Grown()
      ensures e.None? ==> Visits(old(VisitedIn(table.functions)), Labelled(listing)) && Present(Labelled(listing))
    {
      var cur := Cursor(None, None, None);
      for i := 0 to |listing|
        invariant Valid() && Grown() && Holds(cur)
        invariant Visits(old(VisitedIn(table.functions)), Labelled(listing[..i])) && Present(Labelled(listing[..i]))
      {
        var line := Slice(listing[i], 0, 1);
        ghost var before, was := table.functions, VisitedIn(table.functions);
        cur, e := Step(line, classify, callSize, cur);
        if e.Some? {
          return;
        }
        assert listing[..i + 1][..i] == listing[..i];
        FoundStays(before, table.functions);
      }
      assert listing[..|listing|] == listing;
      e := None;
    }

    /**
     * The post-pass of `parse`: every function no label visited, but the
     * sentinel, is deleted from the table and from the calls of each of
     * its callers. The debug message for it names its first caller, so a
     * function without callers ends the post-pass with an `IndexError`,
     * the functions before it already dropped.
     */
    method Prune() returns (e: Option<Error>, ghost calls: map<Function, seq<Function>>)
      requires Graph()
      modifies this`former, table`functions, Members(table.functions)`calls, former`calls
      ensures Graph()
      ensures calls == old(map c | c in Members(table.functions) + former :: c.calls)
      ensures var dropped := old(Unlabelled(table.functions));
        var k := old(Orphan(Unlabelled(table.functions)));
        && table.functions == Keep(old(table.functions), Members(dropped[..k]))
        && e == (if k < |dropped| then Some(IndexError) else None)
        && forall c | c in calls :: Without(c.calls, calls[c], Members(dropped[..k]))
      ensures forall f | f in old(VisitedIn(table.functions)) :: FindIn(table.functions, f.address) == Some(f)
      ensures e.None? ==> forall f | f in table.functions :: f in old(VisitedIn(table.functions)) || f.address == 0
    {
      var dropped := Unlabelled(table.functions);
      ghost var fs, gone := table.functions, former;
      calls := map c | c in Members(fs) + gone :: c.calls;
      ghost var k: nat := Orphan(dropped);
      PruneStart(fs, gone, calls, dropped);
      KeptVisited(fs, dropped, k);
      KeptAll(fs, dropped);
      e, k := DropAll(dropped, fs, gone, calls);
      assert table.functions == Keep(fs, Members(dropped[..k]));
    }

    /** The post-pass starts on the whole table, with nothing deleted yet. */
    lemma PruneStart(fs: seq<Function>, gone: set<Function>, calls: map<Function, seq<Function>>, dropped: seq<Function>)
      requires Graph() && fs == table.functions && gone == former && dropped == Unlabelled(fs)
      requires calls == map c | c in Members(fs) + gone :: c.calls
      ensures Pruned(fs, gone, calls, dropped, 0)
      ensures Unique(dropped) && forall f | f in dropped :: f in fs && f.address != 0
    {
      UnlabelledUnique(fs);
      KeepNothing(fs);
      assert Members(dropped[..0]) == {};
    }

    /**
     * The loop of the post-pass over the functions `dropped` it deletes,
     * up to the first of them without callers (`k`), where it fails.
     */
    method DropAll(dropped: seq<Function>, ghost fs: seq<Function>, ghost gone: set<Function>,
                   ghost calls: map<Function, seq<Function>>) returns (e: Option<Error>, ghost k: nat)
      requires Pruned(fs, gone, calls, dropped, 0)
      requires Unique(dropped) && forall f | f in dropped :: f in fs && f.address != 0
      modifies this`former, table`functions, Members(table.functions)`calls, former`calls
      ensures k == old(Orphan(dropped)) && Pruned(fs, gone, calls, dropped, k)
      ensures e == (if k < |dropped| then Some(IndexError) else None)
    {
      ghost var first := Orphan(dropped);
      var i := 0;
      while i < |dropped|
        invariant i <= first && Pruned(fs, gone, calls, dropped, i)
        invariant forall j | i <= j < |dropped| :: dropped[j].callers == old(dropped[j].callers)
      {
        var f := dropped[i];
        if f.callers == [] {
          assert first == i;
          return Some(IndexError), i;
        }
        assert i < first by {
          assert f.callers == old(dropped[i].callers);
        }
        i := Drop(f, fs, gone, calls, dropped, i);
      }
      assert first == i;
      e, k := None, i;
    }

    /**
     * The state of the post-pass after the first `i` functions of
     * `dropped`: they are gone from the table `fs` it started with and
     * from the calls, recorded in `calls`, of every function, and they
     * joined the functions `gone` that were removed before.
     */
    ghost predicate Pruned(fs: seq<Function>, gone: set<Function>, calls: map<Function, seq<Function>>,
                           dropped: seq<Function>, i: nat)
      reads this`former, table, Members(table.functions)`calls, Members(table.functions)`callers
      reads former`calls, former`callers, calls.Keys`calls
    {
      && i <= |dropped| && Graph()
      && Unique(fs) && |fs| > 0 && fs[0].address == 0 && fs[0] !in Members(dropped[..i])
      && table.functions == Keep(fs, Members(dropped[..i])) && former == gone + Members(dropped[..i])
      && Members(dropped[..i]) <= Members(fs) && calls.Keys == Members(fs) + gone
      && forall c | c in calls :: Without(c.calls, calls[c], Members(dropped[..i]))
    }

    /**
     * One function of the post-pass, the next one of `dropped`:
     * `del table[f]`, then `f` goes from the calls of its callers.
     */
    method Drop(f: Function, ghost fs: seq<Function>, ghost gone: set<Function>,
                ghost calls: map<Function, seq<Function>>, ghost dropped: seq<Function>, i: nat) returns (next: nat)
      requires Pruned(fs, gone, calls, dropped, i) && i < |dropped| && f == dropped[i]
      requires Unique(dropped) && f in fs && f.address != 0
      modifies this`former, table`functions, Members(table.functions)`calls, former`calls
      ensures next == i + 1 && Pruned(fs, gone, calls, dropped, next)
      ensures forall j | 0 <= j < |dropped| :: dropped[j].callers == old(dropped[j].callers)
    {
      ghost var drop := Members(dropped[..i]);
      MembersNext(dropped, i);
      ghost var live := Members(table.functions);
      UniqueDistinct(table.functions);
      Forget(f, fs, drop, dropped);
      KeepSplit(fs, drop);
      Detach(f, live, calls, drop, dropped);
      next := i + 1;
      Dropped(fs, gone, calls, dropped, i, next, drop, f, live);
    }

    /** The calls of the callers of `f`, a function of `live`, lose `f`, and `f` joins the removed functions. */
    method Detach(f: Function, ghost live: set<Function>, ghost calls: map<Function, seq<Function>>,
                  ghost drop: set<Function>, ghost others: seq<Function>)
      requires f in live && Linked(live, former) && Distinct(live)
      requires calls.Keys == live + former && forall c | c in calls :: Without(c.calls, calls[c], drop)
      modifies this`former, Members(f.callers)`calls
      ensures Linked(live - {f}, former) && former == old(former) + {f}
      ensures forall c | c in calls :: Without(c.calls, calls[c], drop + {f})
      ensures forall j | 0 <= j < |others| :: others[j].callers == old(others[j].callers)
    {
      Unlink(variant, f, live, former, calls, drop, others);
      former := former + {f};
    }

    /** `del table[f]` for a function `f` of the table `fs` less `drop`: only `f` goes. */
    method Forget(f: Function, ghost fs: seq<Function>, ghost drop: set<Function>, ghost others: seq<Function>)
      requires Graph() && Unique(fs) && f in fs && f !in drop && table.functions == Keep(fs, drop)
      modifies table`functions
      ensures table.functions == Keep(fs, drop + {f})
      ensures Linked(Members(old(table.functions)), former)
      ensures forall i | 0 <= i < |f.callers| :: f.callers[i] in Members(old(table.functions)) + former
      ensures forall j | 0 <= j < |others| :: others[j].callers == old(others[j].callers)
    {
      KeepRemove(variant, fs, drop, f);
      var e := table.Delete(variant, f);
    }

    /**
     * Once `f`, the next function of `dropped`, is gone from the table and
     * from the calls of its callers, the post-pass has dropped one more.
     */
    lemma Dropped(fs: seq<Function>, gone: set<Function>, calls: map<Function, seq<Function>>,
                  dropped: seq<Function>, i: nat, next: nat, drop: set<Function>, f: Function, live: set<Function>)
      requires i < |dropped| && next == i + 1 && f == dropped[i] && Unique(dropped) && drop == Members(dropped[..i])
      requires Unique(fs) && |fs| > 0 && fs[0].address == 0 && fs[0] !in drop && f in fs && f.address != 0
      requires drop <= Members(fs) && calls.Keys == Members(fs) + gone
      requires live == Members(Keep(fs, drop)) && table.functions == Keep(fs, drop + {f})
      requires Linked(live - {f}, former) && former == gone + drop + {f}
      requires forall c | c in calls :: Without(c.calls, calls[c], drop + {f})
      ensures Pruned(fs, gone, calls, dropped, next)
    {
      MembersNext(dropped, i);
      KeepUnique(fs, drop + {f});
      KeepHead(fs, drop + {f});
      KeepLess(fs, drop, f);
    }

    /** The end of `parse`: every function of the table is unvisited again. */
    method Reset()
      modifies Members(table.functions)`visited
      ensures forall f | f in table.functions :: !f.visited
    {
      for i := 0 to |table.functions|
        invariant forall j | 0 <= j < i :: !table.functions[j].visited
      {
        table.functions[i].visited := false;
      }
    }

    /**
     * `parse` of a disassembly listing, its lines with their newline: the
     * loop over the lines, the post-pass and the reset of the visited
     * marks. When neither the loop nor the post-pass fails, the table
     * holds a function for every labelled address and, besides the
     * sentinel, only functions a line labels or that were visited before;
     * none is left visited.
     *
     * The package selects the x86-64 patterns through the name of their
     * module, which holds the class rather than being it, so on x86-64 the
     * selection itself fails with AttributeError before any line is read.
     */
    method Parse(listing: seq<string>, classify: string -> Category, callSize: string -> Result<int>)
      returns (e: Option<Error>)
      requires Valid()
      modifies this`former, former`calls, table, table.statistic
      modifies Members(table.functions)`size, Members(table.functions)`dynamic
      modifies Members(table.functions)`calls, Members(table.functions)`callers
      modifies Members(table.functions)`file, Members(table.functions)`section, Members(table.functions)`visited
      ensures Valid()
      ensures variant == Package && arch == X86_64 ==>
        e == Some(AttributeError) && table.functions == old(table.functions)
        && table.statistic.history == old(table.statistic.history)
      ensures e.None? ==> forall f | f in table.functions :: !f.visited
      ensures e.None? ==> forall address | address in Labelled(listing) :: FindIn(table.functions, address).Some?
      ensures e.None? ==> forall f | f in table.functions ::
        f.address == 0 || f.address in Labelled(listing) || f in old(VisitedIn(table.functions))
      ensures forall c, i | c in table.functions && 0 <= i < |c.calls| :: c.calls[i] in table.functions
    {
      if variant == Package && arch == X86_64 {
        TableClosed();
        return Some(AttributeError);
      }
      ghost var was := VisitedIn(table.functions);
      e := Scan(listing, classify, callSize);
      if e.Some? {
        TableClosed();
        return;
      }
      ghost var scanned, marked := table.functions, VisitedIn(table.functions);
      ghost var calls;
      e, calls := Prune();
      if e.Some? {
        TableClosed();
        return;
      }
      Parsed(scanned, was, marked, Labelled(listing));
      ghost var valid, kept := Valid(), table.functions;
      Reset();
      assert Valid() == valid && table.functions == kept;
      TableClosed();
    }

    /** In a valid table every call leads to a function of the table, so none to a deleted one. */
    lemma TableClosed()
      requires Valid()
      ensures forall c, i | c in table.functions && 0 <= i < |c.calls| :: c.calls[i] in table.functions
    {
    }

    /** What the loop of `parse` visited and the post-pass kept, before the reset. */
    lemma Parsed(scanned: seq<Function>, was: set<Function>, marked: set<Function>, labelled: set<int>)
      requires Unique(scanned)
      requires forall f | f in marked :: f in was || f.address in labelled
      requires forall address | address in labelled ::
        FindIn(scanned, address).Some? && FindIn(scanned, address).value in marked
      requires forall f | f in marked :: FindIn(table.functions, f.address) == Some(f)
      requires forall f | f in table.functions :: f in marked || f.address == 0
      requires forall f | f in table.functions :: f in scanned
      ensures forall address | address in labelled :: FindIn(table.functions, address).Some?
      ensures forall f | f in table.functions :: f.address == 0 || f.address in labelled || f in was
    {
      forall address | address in labelled ensures FindIn(table.functions, address).Some? {
        var f := FindIn(scanned, address).value;
        assert f in scanned;
      }
    }

    /**
     * `_handle_dynamic`: when the tail of the call stack has a dynamic
     * stack operation, every frame below it becomes imprecise, and the
     * warning switch becomes `multiple_warn` once it has warned.
     */
    method HandleDynamic(callstack: seq<Function>)
      requires |callstack| > 0
      modifies Members(callstack)`imprecise, this`warnDynamic
      ensures var fire := Last(callstack).dynamic;
        && (forall f | f in callstack :: f.imprecise == (old(f.imprecise) || (fire && f in callstack[..|callstack| - 1])))
        && warnDynamic == (old(warnDynamic) && (!fire || multipleWarn))
    {
      if !Last(callstack).dynamic {
        return;
      }
      MarkImprecise(callstack[..|callstack| - 1]);
      if warnDynamic {
        warnDynamic := multipleWarn;
      }
    }

    /**
     * `_handle_function_pointer`: when the tail of the call stack calls
     * the function-pointer sentinel, every frame below it becomes
     * imprecise, and the warning switch becomes `multiple_warn`.
     */
    method HandlePointer(callstack: seq<Function>)
      requires |callstack| > 0
      modifies Members(callstack)`imprecise, this`warnFp
      ensures var fire := CallsPointer(Last(callstack));
        && (forall f | f in callstack :: f.imprecise == (old(f.imprecise) || (fire && f in callstack[..|callstack| - 1])))
        && warnFp == (old(warnFp) && (!fire || multipleWarn))
    {
      if !CallsPointer(Last(callstack)) {
        return;
      }
      MarkImprecise(callstack[..|callstack| - 1]);
      if warnFp {
        warnFp := multipleWarn;
      }
    }

    /**
     * `_handle_cycle`: `start` is the first frame `==` to the tail. When
     * that is the tail itself nothing happens; otherwise the frames below
     * `start` become imprecise, those from `start` up to the tail
     * imprecise and part of a cycle, and the node is skipped.
     */
    method HandleCycle(callstack: seq<Function>) returns (skip: bool)
      requires |callstack| > 0
      modifies Members(callstack)`imprecise, Members(callstack)`cycle, this`warnCycle
      ensures var n, start := |callstack|, Position(variant, callstack, Last(callstack));
        && start < n && skip == (start < n - 1)
        && (forall f | f in callstack :: f.imprecise == (old(f.imprecise) || (skip && f in callstack[..n - 1])))
        && (forall f | f in callstack :: f.cycle == (old(f.cycle) || (skip && f in callstack[start..n - 1])))
        && warnCycle == (old(warnCycle) && (!skip || multipleWarn))
    {
      var n := |callstack|;
      var start := Position(variant, callstack, Last(callstack));
      SameSelf(variant, Last(callstack));
      if start == n - 1 {
        return false;
      }
      assert callstack[..n - 1] == callstack[..start] + callstack[start..n - 1];
      MarkImprecise(callstack[..start]);
      MarkCycle(callstack[start..n - 1]);
      if warnCycle {
        warnCycle := multipleWarn;
      }
      skip := true;
    }

    /**
     * What `_handle_node` does to the call stack `callstack`, `skip` being
     * its answer: an empty call stack is skipped and a tail visited before
     * is not, both with no effect; otherwise a regarded tail with a dynamic
     * stack operation or a call through a pointer makes the frames below
     * it imprecise, a cycle back to the first frame `start` `==` to the
     * tail makes them imprecise and those from `start` part of the cycle,
     * and each warning switch that fires becomes `multiple_warn`.
     */
    twostate predicate Handled(callstack: seq<Function>, skip: bool)
      reads this, Members(callstack)`imprecise, Members(callstack)`cycle, Members(callstack)`dynamic
      reads Members(callstack)`section, Members(callstack)`calls, Members(callstack)`file
    {
      if |callstack| == 0 then
        skip && warnDynamic == old(warnDynamic) && warnFp == old(warnFp) && warnCycle == old(warnCycle)
      else
        var n, c := |callstack|, Last(callstack);
        var start := Position(variant, callstack, c);
        var dyn := !old(c.visited) && Regard(c, regardOs) && c.dynamic;
        var fp := !old(c.visited) && Regard(c, regardOs) && CallsPointer(c);
        && skip == (!old(c.visited) && start < n - 1)
        && (forall f | f in callstack :: f.imprecise == (old(f.imprecise) || ((dyn || fp || skip) && f in callstack[..n - 1])))
        && (forall f | f in callstack :: f.cycle == (old(f.cycle) || (skip && f in callstack[start..n - 1])))
        && warnDynamic == (old(warnDynamic) && (!dyn || multipleWarn))
        && warnFp == (old(warnFp) && (!fp || multipleWarn))
        && warnCycle == (old(warnCycle) && (!skip || multipleWarn))
    }

    /** `_handle_node`, as `Handled` states it. */
    method HandleNode(callstack: seq<Function>) returns (skip: bool)
      modifies Members(callstack)`imprecise, Members(callstack)`cycle
      modifies this`warnDynamic, this`warnFp, this`warnCycle
      ensures Handled(callstack, skip)
    {
      if |callstack| == 0 {
        return true;
      }
      var current := Last(callstack);
      if current.visited {
        return false;
      }
      HandleChecks(callstack);
      skip := HandleCycle(callstack);
    }

    /** The checks `_handle_node` runs on a regarded tail: dynamic stack operations, then function pointers. */
    method HandleChecks(callstack: seq<Function>)
      requires |callstack| > 0
      modifies Members(callstack)`imprecise, this`warnDynamic, this`warnFp
      ensures var c := Last(callstack);
        var dyn, fp := Regard(c, regardOs) && c.dynamic, Regard(c, regardOs) && CallsPointer(c);
        && (forall f | f in callstack :: f.imprecise == (old(f.imprecise) || ((dyn || fp) && f in callstack[..|callstack| - 1])))
        && warnDynamic == (old(warnDynamic) && (!dyn || multipleWarn))
        && warnFp == (old(warnFp) && (!fp || multipleWarn))
    {
      if Regard(Last(callstack), regardOs) {
        HandleDynamic(callstack);
        HandlePointer(callstack);
      }
    }

    /** `up` as the walk needs it: the walk has one frame fewer to go, and stays within `universe`. */
    static method Climb(visitor: Visitor, ghost universe: set<Function>)
      requires |visitor.callstack| > 0 && visitor.Inside(universe)
      modifies visitor
      ensures visitor.Inside(universe) && Unseen(universe) == old(Unseen(universe))
      ensures |visitor.callstack| + Total(visitor.queue) < old(|visitor.callstack| + Total(visitor.queue))
    {
      var _ := visitor.Up(universe);
    }

    /**
     * One round of the loop of `calculate_stack` once `down` gave the tail
     * `current`: the call stack is handled as `Handled` says and the tail
     * visited; unless it is skipped its total becomes its own size and the
     * largest total of its calls; then `up`. No other function changes its
     * visited mark or total, nor any function off the call stack its
     * marks. The walk has one frame fewer to go.
     */
    method Round(visitor: Visitor, current: Function, ghost universe: set<Function>) returns (skip: bool)
      requires |visitor.callstack| > 0 && current == Last(visitor.callstack) && visitor.Inside(universe)
      modifies visitor, this`warnDynamic, this`warnFp, this`warnCycle
      modifies Members(visitor.callstack)`imprecise, Members(visitor.callstack)`cycle, current`visited, current`total
      ensures Handled(old(visitor.callstack), skip)
      ensures forall f | f in universe && f != current :: f.visited == old(f.visited) && f.total == old(f.total)
      ensures forall f | f in universe && f !in old(visitor.callstack) :: f.imprecise == old(f.imprecise) && f.cycle == old(f.cycle)
      ensures visitor.Inside(universe) && current.visited
      ensures current.total == (if skip then old(current.total) else current.size + old(MaxTotal(current.calls)))
      ensures Unseen(universe) == old(Unseen(universe)) - {current}
      ensures current in old(Unseen(universe)) ==> |Unseen(universe)| < |old(Unseen(universe))|
      ensures |visitor.callstack| + Total(visitor.queue) < old(|visitor.callstack| + Total(visitor.queue))
    {
      skip := Visit(visitor.callstack, current, universe);
      ghost var left := Unseen(universe);
      Climb(visitor, universe);
      assert Unseen(universe) == left;
    }

    /** `down`: the walk moves on to its next function, which is new to it unless the call stack stays as it was. */
    method Advance(visitor: Visitor, ghost universe: set<Function>) returns (current: Function)
      requires |visitor.callstack| > 0 && visitor.Inside(universe) && Closed(universe)
      modifies visitor
      ensures |visitor.callstack| >= old(|visitor.callstack|) && visitor.callstack[..old(|visitor.callstack|)] == old(visitor.callstack)
      ensures |visitor.callstack| > 0 && current == Last(visitor.callstack) && current in universe
      ensures visitor.Inside(universe)
      ensures || current in Unseen(universe)
              || |visitor.callstack| + Total(visitor.queue) == old(|visitor.callstack| + Total(visitor.queue))
    {
      ghost var g := Children(universe);
      ghost var n := |visitor.callstack|;
      current := visitor.Down(variant, g);
      if |visitor.callstack| > n {
        assert current in Unvisited(visitor.callstack[|visitor.callstack| - 2].calls);
      }
    }

    /**
     * The call stack is handled as `Handled` says, and its tail `current`
     * visited and its total set unless it is skipped; no other function
     * changes its visited mark or total, nor any function off the call
     * stack its marks.
     */
    method Visit(callstack: seq<Function>, current: Function, ghost universe: set<Function>) returns (skip: bool)
      requires |callstack| > 0 && current == Last(callstack)
      modifies Members(callstack)`imprecise, Members(callstack)`cycle, current`visited, current`total
      modifies this`warnDynamic, this`warnFp, this`warnCycle
      ensures Handled(callstack, skip)
      ensures forall f | f in universe && f != current :: f.visited == old(f.visited) && f.total == old(f.total)
      ensures forall f | f in universe && f !in callstack :: f.imprecise == old(f.imprecise) && f.cycle == old(f.cycle)
      ensures current.visited
      ensures skip == (!old(current.visited) && Position(variant, callstack, current) < |callstack| - 1)
      ensures current.total == (if skip then old(current.total) else current.size + old(MaxTotal(current.calls)))
      ensures Unseen(universe) == old(Unseen(universe)) - {current}
      ensures current in old(Unseen(universe)) ==> |Unseen(universe)| < |old(Unseen(universe))|
    {
      ghost var m, unseen := MaxTotal(current.calls), Unseen(universe);
      skip := HandleNode(callstack);
      assert MaxTotal(current.calls) == m && Unseen(universe) == unseen;
      Tally(current, skip, universe);
    }

    /** `current` is marked visited and, unless it is skipped, given its own size plus the largest total of its calls. */
    static method Tally(current: Function, skip: bool, ghost universe: set<Function>)
      modifies current`visited, current`total
      ensures current.visited
      ensures current.total == (if skip then old(current.total) else current.size + old(MaxTotal(current.calls)))
      ensures Unseen(universe) == old(Unseen(universe)) - {current}
      ensures current in old(Unseen(universe)) ==> |Unseen(universe)| < |old(Unseen(universe))|
    {
      ghost var m := MaxTotal(current.calls);
      Mark(current, universe);
      if !skip {
        assert MaxTotal(current.calls) == m;
        var sub := SubcallSize(current.calls);
        current.total := current.size + sub;
      }
    }

    /** `current` is marked visited, which takes it out of the unvisited functions of `universe`. */
    static method Mark(current: Function, ghost universe: set<Function>)
      modifies current`visited
      ensures current.visited
      ensures Unseen(universe) == old(Unseen(universe)) - {current}
      ensures current in old(Unseen(universe)) ==> |Unseen(universe)| < |old(Unseen(universe))|
    {
      current.visited := true;
    }

    /** The `while callstack` loop of `calculate_stack`: rounds until the call stack is empty. */
    method Traverse(visitor: Visitor, ghost universe: set<Function>)
      requires visitor.Inside(universe) && Closed(universe)
      modifies visitor, this`warnDynamic, this`warnFp, this`warnCycle
      modifies universe`visited, universe`total, universe`imprecise, universe`cycle
      ensures |visitor.callstack| == 0
    {
      while |visitor.callstack| > 0
        invariant visitor.Inside(universe)
        decreases |Unseen(universe)|, |visitor.callstack| + Total(visitor.queue)
      {
        ghost var unseen := Unseen(universe);
        var current := Advance(visitor, universe);
        assert Unseen(universe) == unseen;
        var skip := Round(visitor, current, universe);
      }
    }

    /**
     * `calculate_stack`: walks the call graph from the functions without
     * callers and gives every function the walk reaches its total; the
     * stack has a limit unless one of them ended up imprecise.
     */
    method CalculateStack() returns (precise: bool)
      requires Valid()
      modifies this`warnDynamic, this`warnFp, this`warnCycle
      modifies Members(table.functions)`visited, Members(table.functions)`total
      modifies Members(table.functions)`imprecise, Members(table.functions)`cycle
      ensures Valid()
      ensures precise <==> forall f | f in Roots(table.functions) :: !f.imprecise
    {
      ghost var valid := Valid();
      var entrances := Explore();
      assert Valid() == valid;
      precise := Precise(entrances);
    }

    /** The walk of `calculate_stack` from the functions without callers, which it hands back. */
    method Explore() returns (entrances: seq<Function>)
      requires Graph()
      modifies this`warnDynamic, this`warnFp, this`warnCycle
      modifies Members(table.functions)`visited, Members(table.functions)`total
      modifies Members(table.functions)`imprecise, Members(table.functions)`cycle
      ensures entrances == Roots(table.functions)
    {
      entrances := Roots(table.functions);
      ghost var universe := Members(table.functions);
      LinkedClosed(universe, former);
      var visitor := new Visitor(variant, entrances, universe);
      Traverse(visitor, universe);
    }

    /** `get_stack_limit`: the largest total of the table, and 0 when there is none above 0. */
    method GetStackLimit() returns (limit: int)
      ensures limit >= 0
      ensures forall f | f in table.functions :: f.total <= limit
      ensures limit == 0 || exists f | f in table.functions :: f.total == limit
    {
      limit := table.Limit();
    }
  }
}
