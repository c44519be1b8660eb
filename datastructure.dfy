/**
 * The data the analysis builds: the stack impact of an instruction and the
 * operation statistic, the functions of a binary with their call edges,
 * the function table, and the visitor that walks the call graph with an
 * explicit call stack and a queue of pending siblings.
 *
 * A function's `calls` and `callers` (the source's `returns`) tables are sequences held by the
 * function; the table operations on them (find by address, delete by
 * `==`) are the same functions on sequences the function table uses.
 */
module DataStructure {
  import opened Wrappers
  import opened Text
  import opened Numbers
  import opened Architecture

  // ---------------------------------------------------------------------
  // Stack impact and the operation statistic

  /** How an instruction acts on the stack, in increasing priority. */
  datatype StackImpact = No | Clear | Potential | Weak

  function Rank(i: StackImpact): nat {
    match i
    case No => 0
    case Clear => 1
    case Potential => 2
    case Weak => 3
  }

  /** The impact of higher priority; the first one when both are equal. */
  function Stronger(old_: StackImpact, new_: StackImpact): (m: StackImpact)
    ensures Rank(m) >= Rank(old_) && Rank(m) >= Rank(new_)
    ensures m == old_ || m == new_
  {
    if Rank(new_) > Rank(old_) then new_ else old_
  }

  datatype OperationStatistic = OperationStatistic(executions: nat, stackImpact: StackImpact)

  /** How often `impact` was recorded. */
  function Occurrences(history: seq<(string, StackImpact)>, impact: StackImpact): nat {
    if |history| == 0 then 0
    else Occurrences(history[..|history| - 1], impact) + (if Last(history).1 == impact then 1 else 0)
  }

  /** How often `op` was recorded. */
  function Executions(history: seq<(string, StackImpact)>, op: string): nat {
    if |history| == 0 then 0
    else Executions(history[..|history| - 1], op) + (if Last(history).0 == op then 1 else 0)
  }

  /** The highest-priority impact recorded for `op` (`No` when there is none). */
  function Strongest(history: seq<(string, StackImpact)>, op: string): StackImpact {
    if |history| == 0 then No
    else if Last(history).0 == op then Stronger(Strongest(history[..|history| - 1], op), Last(history).1)
    else Strongest(history[..|history| - 1], op)
  }

  /** Every recorded operation once; the four impact counters add up to the number of records. */
  lemma {:induction false} OccurrencesPartition(history: seq<(string, StackImpact)>)
    ensures Occurrences(history, No) + Occurrences(history, Clear)
          + Occurrences(history, Potential) + Occurrences(history, Weak) == |history|
  {
    if |history| > 0 {
      OccurrencesPartition(history[..|history| - 1]);
    }
  }

  /** The strongest impact of an operation is one that was recorded for it, and no recorded one is stronger. */
  lemma {:induction false} StrongestRecorded(history: seq<(string, StackImpact)>, op: string)
    requires Executions(history, op) > 0
    ensures exists i | 0 <= i < |history| :: history[i] == (op, Strongest(history, op))
    ensures forall i | 0 <= i < |history| && history[i].0 == op :: Rank(history[i].1) <= Rank(Strongest(history, op))
  {
    var h := history[..|history| - 1];
    assert forall i | 0 <= i < |h| :: h[i] == history[i];
    if Last(history).0 == op && Executions(h, op) == 0 {
      NoneRecorded(h, op);
      assert history[|history| - 1] == (op, Strongest(history, op));
    } else if Last(history).0 == op {
      StrongestRecorded(h, op);
      if Strongest(history, op) == Last(history).1 {
        assert history[|history| - 1] == (op, Strongest(history, op));
      }
    } else {
      StrongestRecorded(h, op);
    }
  }

  lemma {:induction false} NoneRecorded(history: seq<(string, StackImpact)>, op: string)
    requires Executions(history, op) == 0
    ensures Strongest(history, op) == No
    ensures forall i | 0 <= i < |history| :: history[i].0 != op
  {
    if |history| > 0 {
      var h := history[..|history| - 1];
      NoneRecorded(h, op);
      assert forall i | 0 <= i < |h| :: h[i] == history[i];
    }
  }

  /** The two counter maps summarise the records. */
  ghost predicate Summarises(history: seq<(string, StackImpact)>, perOperations: map<string, OperationStatistic>,
                             perStackImpact: map<StackImpact, nat>)
  {
    && (forall i: StackImpact :: i in perStackImpact && perStackImpact[i] == Occurrences(history, i))
    && (forall op :: op in perOperations <==> Executions(history, op) > 0)
    && (forall op | op in perOperations ::
          perOperations[op] == OperationStatistic(Executions(history, op), Strongest(history, op)))
  }

  /** Counting one more record keeps the counters a summary of the records. */
  lemma Record(history: seq<(string, StackImpact)>, perOperations: map<string, OperationStatistic>,
               perStackImpact: map<StackImpact, nat>, operation: string, stackImpact: StackImpact)
    requires Summarises(history, perOperations, perStackImpact)
    ensures Summarises(history + [(operation, stackImpact)],
      perOperations[operation :=
        if operation in perOperations then
          OperationStatistic(perOperations[operation].executions + 1, Stronger(perOperations[operation].stackImpact, stackImpact))
        else OperationStatistic(1, stackImpact)],
      perStackImpact[stackImpact := perStackImpact[stackImpact] + 1])
  {
    var h := history + [(operation, stackImpact)];
    assert h[..|h| - 1] == history;
    if operation !in perOperations {
      NoneRecorded(history, operation);
    }
  }

  /**
   * The statistic of the operations of a binary. `history` (a proof-only
   * record) lists every call of `add_operation`; the counters summarise it.
   */
  class Statistic {
    var perOperations: map<string, OperationStatistic>
    var perStackImpact: map<StackImpact, nat>
    ghost var history: seq<(string, StackImpact)>

    /** Each counter is the summary of the records. */
    ghost predicate Valid()
      reads this
    {
      Summarises(history, perOperations, perStackImpact)
    }

    constructor ()
      ensures Valid() && history == []
      ensures perOperations == map[] && perStackImpact == map[No := 0, Clear := 0, Potential := 0, Weak := 0]
    {
      perOperations := map[];
      perStackImpact := map[No := 0, Clear := 0, Potential := 0, Weak := 0];
      history := [];
      new;
      assert forall i: StackImpact :: Rank(i) <= 3 && i in perStackImpact;
    }

    /**
     * `add_operation`: one more execution of `operation`, its impact raised
     * to `stackImpact` when that has higher priority, and one more
     * instruction of that impact.
     */
    method AddOperation(operation: string, stackImpact: StackImpact)
      requires Valid()
      modifies this
      ensures Valid() && history == old(history) + [(operation, stackImpact)]
      ensures perOperations == old(perOperations)[operation :=
        if operation in old(perOperations) then
          OperationStatistic(old(perOperations)[operation].executions + 1,
                             Stronger(old(perOperations)[operation].stackImpact, stackImpact))
        else OperationStatistic(1, stackImpact)]
      ensures perStackImpact == old(perStackImpact)[stackImpact := old(perStackImpact)[stackImpact] + 1]
    {
      Record(history, perOperations, perStackImpact, operation, stackImpact);
      if operation in perOperations {
        var s := perOperations[operation];
        var impact := s.stackImpact;
        if Rank(stackImpact) > Rank(impact) {
          impact := stackImpact;
        }
        perOperations := perOperations[operation := OperationStatistic(s.executions + 1, impact)];
      } else {
        perOperations := perOperations[operation := OperationStatistic(1, stackImpact)];
      }
      perStackImpact := perStackImpact[stackImpact := perStackImpact[stackImpact] + 1];
      history := history + [(operation, stackImpact)];
    }
  }

  // ---------------------------------------------------------------------
  // Functions

  const MAX_NAME_LEN: nat := 64

  /**
   * The name a function is given: the decimal address when there is no
   * name, and a name longer than 64 characters cut to its first 61
   * characters and `...`.
   */
  function FunctionName(address: int, name: Option<string>): (n: string)
    ensures |n| <= MAX_NAME_LEN
    ensures var given := if name.None? then ToDecimal(address) else name.value;
            && (|given| <= MAX_NAME_LEN <==> n == given)
            && (|given| > MAX_NAME_LEN ==> |n| == MAX_NAME_LEN && n[..MAX_NAME_LEN - 3] == given[..MAX_NAME_LEN - 3] && n[MAX_NAME_LEN - 3..] == "...")
  {
    var given := if name.None? then ToDecimal(address) else name.value;
    if |given| > MAX_NAME_LEN then given[..MAX_NAME_LEN - 3] + "..." else given
  }

  /** Naming is idempotent: a function named after a function's name gets the same name. */
  lemma FunctionNameIdempotent(address: int, other: int, name: Option<string>)
    ensures FunctionName(other, Some(FunctionName(address, name))) == FunctionName(address, name)
  {
  }

  /** A function named by its address carries the address: its name parses back to it. */
  lemma FunctionNameParses(address: int)
    requires |ToDecimal(address)| <= MAX_NAME_LEN
    ensures ParseInt(FunctionName(address, None), Decimal) == Ok(address)
  {
    ParseToDecimal(address);
  }

  /** The file given to a function that is not created by its label. */
  function DefaultFile(v: Variant): Option<string> {
    if v == Package then Some("") else None
  }

  /** A function of the binary. */
  class Function {
    const address: int
    const name: string
    var section: Option<string>
    var file: Option<string>
    var size: int
    var total: int
    var dynamic: bool
    var imprecise: bool
    var cycle: bool
    var visited: bool
    var calls: seq<Function>
    /** The table the source calls `returns`: each function whose `calls` got this one appended. */
    var callers: seq<Function>

    constructor (address: int, name: Option<string>, section: Option<string>, file: Option<string>)
      ensures this.address == address && this.name == FunctionName(address, name)
      ensures this.section == section && this.file == file
      ensures size == 0 && total == 0 && !dynamic && !imprecise && !cycle && !visited
      ensures calls == [] && callers == []
    {
      this.address := address;
      this.name := FunctionName(address, name);
      this.section := section;
      this.file := file;
      size := 0;
      total := 0;
      dynamic := false;
      imprecise := false;
      cycle := false;
      visited := false;
      calls := [];
      callers := [];
    }
  }

  // ---------------------------------------------------------------------
  // The comparators of functions

  /** What the comparators of a function look at. */
  datatype Key = Key(file: Option<string>, address: int)

  function KeyOf(f: Function): Key
    reads f`file
  {
    Key(f.file, f.address)
  }

  /** Python's `<` on strings: the first differing character decides, and a proper prefix is smaller. */
  function StrLess(a: string, b: string): bool {
    if |a| == 0 then |b| > 0
    else if |b| == 0 then false
    else if a[0] != b[0] then a[0] < b[0]
    else StrLess(a[1..], b[1..])
  }

  /** Two different strings are ordered one way exactly; no string is below itself. */
  lemma {:induction false} StrLessTrichotomy(a: string, b: string)
    ensures !StrLess(a, a)
    ensures a != b ==> StrLess(a, b) != StrLess(b, a)
    decreases |a|
  {
    if |a| > 0 {
      StrLessTrichotomy(a[1..], a[1..]);
    }
    if a != b && |a| > 0 && |b| > 0 && a[0] == b[0] {
      assert a == [a[0]] + a[1..] && b == [b[0]] + b[1..];
      StrLessTrichotomy(a[1..], b[1..]);
    }
  }

  /** `<` between two different files: a missing file cannot be ordered against a present one. */
  function FileLess(x: Option<string>, y: Option<string>): Result<bool> {
    if x.Some? && y.Some? then Ok(StrLess(x.value, y.value)) else Err(TypeError)
  }

  /** `==`: the package compares the file and then the address, the older script the address only. */
  predicate Equal(v: Variant, x: Key, y: Key) {
    if v == Legacy then x.address == y.address
    else if x.file == y.file then x.address == y.address
    else x.file == y.file
  }

  function NotEqual(v: Variant, x: Key, y: Key): bool {
    if v == Legacy then x.address != y.address else !Equal(v, x, y)
  }

  /** `==` against `None`: the package reads the file of `None` and fails; the older script answers no. */
  function EqualNone(v: Variant): Result<bool> {
    if v == Legacy then Ok(false) else Err(AttributeError)
  }

  function Less(v: Variant, x: Key, y: Key): Result<bool> {
    if v == Legacy || x.file == y.file then Ok(x.address < y.address) else FileLess(x.file, y.file)
  }

  function Greater(v: Variant, x: Key, y: Key): Result<bool> {
    if v == Legacy || x.file == y.file then Ok(x.address > y.address) else FileLess(y.file, x.file)
  }

  function LessEq(v: Variant, x: Key, y: Key): Result<bool> {
    if v == Legacy || x.file == y.file then Ok(x.address <= y.address)
    else match FileLess(x.file, y.file)
      case Ok(b) => Ok(b)
      case Err(e) => Err(e)
  }

  function GreaterEq(v: Variant, x: Key, y: Key): Result<bool> {
    if v == Legacy || x.file == y.file then Ok(x.address >= y.address)
    else match FileLess(y.file, x.file)
      case Ok(b) => Ok(b)
      case Err(e) => Err(e)
  }

  /** `==` holds exactly when the address (and in the package the file) agree; `!=` is its negation. */
  lemma EqualIff(v: Variant, x: Key, y: Key)
    ensures Equal(v, x, y) <==> x.address == y.address && (v == Package ==> x.file == y.file)
    ensures NotEqual(v, x, y) == !Equal(v, x, y)
  {
  }

  /** Keys whose files can be compared. */
  predicate Comparable(v: Variant, x: Key, y: Key) {
    v == Legacy || x.file == y.file || (x.file.Some? && y.file.Some?)
  }

  /**
   * The comparators order by file first and by address within a file: on
   * comparable keys exactly one of `<`, `==`, `>` holds, `<=` is `<` or
   * `==`, `>=` is `>` or `==`, and `>` is `<` with the sides swapped.
   */
  lemma Trichotomy(v: Variant, x: Key, y: Key)
    requires Comparable(v, x, y)
    ensures Less(v, x, y).Ok? && Greater(v, x, y).Ok? && LessEq(v, x, y).Ok? && GreaterEq(v, x, y).Ok?
    ensures var lt, gt := Less(v, x, y).value, Greater(v, x, y).value;
            && (if lt then 1 else 0) + (if Equal(v, x, y) then 1 else 0) + (if gt then 1 else 0) == 1
            && LessEq(v, x, y).value == (lt || Equal(v, x, y))
            && GreaterEq(v, x, y).value == (gt || Equal(v, x, y))
            && Greater(v, x, y) == Less(v, y, x)
  {
    if v == Package && x.file != y.file {
      StrLessTrichotomy(x.file.value, y.file.value);
    }
  }

  /** A missing file cannot be ordered against a present one. */
  lemma Incomparable(x: Key, y: Key)
    requires x.file.None? && y.file.Some?
    ensures Less(Package, x, y) == Err(TypeError) && Greater(Package, x, y) == Err(TypeError)
    ensures !Equal(Package, x, y) && Less(Legacy, x, y).Ok?
  {
  }

  /** `==` on two functions. */
  predicate Same(v: Variant, f: Function, g: Function)
    reads f`file, g`file
  {
    Equal(v, KeyOf(f), KeyOf(g))
  }

  // ---------------------------------------------------------------------
  // Tables as sequences of functions

  /** `find`: the position of the first function with the address, or the length. */
  function Locate(s: seq<Function>, address: int): (i: nat)
    ensures i <= |s|
    ensures forall j | 0 <= j < i :: s[j].address != address
    ensures i < |s| ==> s[i].address == address
  {
    if |s| == 0 then 0
    else if s[0].address == address then 0
    else 1 + Locate(s[1..], address)
  }

  /** `Table.find`: the first function with the address, or nothing. */
  function FindIn(s: seq<Function>, address: int): (r: Option<Function>)
    ensures r.None? <==> forall j | 0 <= j < |s| :: s[j].address != address
    ensures r.Some? ==> exists i | 0 <= i < |s| :: s[i] == r.value && r.value.address == address
                                              && forall j | 0 <= j < i :: s[j].address != address
  {
    var i := Locate(s, address);
    if i < |s| then Some(s[i]) else None
  }

  /** `list.index`: the position of the first function `==` to `key`, or the length. */
  function Position(v: Variant, s: seq<Function>, key: Function): (i: nat)
    reads (set x | x in s)`file, key`file
    ensures i <= |s|
    ensures forall j | 0 <= j < i :: !Same(v, s[j], key)
    ensures i < |s| ==> Same(v, s[i], key)
  {
    if |s| == 0 then 0
    else if Same(v, s[0], key) then 0
    else 1 + Position(v, s[1..], key)
  }

  /** Every function is `==` to itself. */
  lemma SameSelf(v: Variant, f: Function)
    ensures Same(v, f, f)
  {
  }

  /** A function that is not `==` to any function of `s` is not one of them. */
  lemma PositionAbsent(v: Variant, s: seq<Function>, key: Function)
    requires Position(v, s, key) == |s|
    ensures key !in s
  {
    assert forall j | 0 <= j < |s| :: s[j] == key ==> Same(v, s[j], key);
  }

  /** `del table[key]`: the first function `==` to `key` removed, or a `ValueError`. */
  function Remove(v: Variant, s: seq<Function>, key: Function): (r: Result<seq<Function>>)
    reads s, key
    ensures r.Err? <==> forall j | 0 <= j < |s| :: !Same(v, s[j], key)
    ensures r.Err? ==> r.error == ValueError
    ensures r.Ok? ==> |r.value| == |s| - 1 && multiset(r.value) == multiset(s) - multiset{s[Position(v, s, key)]}
  {
    var i := Position(v, s, key);
    if i == |s| then Err(ValueError)
    else
      assert s == s[..i] + [s[i]] + s[i + 1..];
      Ok(s[..i] + s[i + 1..])
  }

  // ---------------------------------------------------------------------
  // The function table

  /** Non-increasing order of `total`. */
  ghost predicate Descending(s: seq<Function>)
    reads s
  {
    forall i, j | 0 <= i < j < |s| :: s[i].total >= s[j].total
  }

  /** `f` placed after every function of `s` whose total is at least its own. */
  function Insert(s: seq<Function>, f: Function): (r: seq<Function>)
    reads s, f
    ensures multiset(r) == multiset(s) + multiset{f}
  {
    if |s| == 0 then [f]
    else if Last(s).total >= f.total then s + [f]
    else
      var init := s[..|s| - 1];
      assert s == init + [Last(s)];
      Insert(init, f) + [Last(s)]
  }

  /** Every total of `Insert(s, f)` is at least `bound` when those of `s` and `f` are. */
  lemma {:induction false} InsertBound(s: seq<Function>, f: Function, bound: int)
    requires forall i | 0 <= i < |s| :: s[i].total >= bound
    requires f.total >= bound
    ensures forall i | 0 <= i < |Insert(s, f)| :: Insert(s, f)[i].total >= bound
  {
    if |s| > 0 && Last(s).total < f.total {
      InsertBound(s[..|s| - 1], f, bound);
    }
  }

  /** Insertion keeps the order. */
  lemma {:induction false} InsertDescending(s: seq<Function>, f: Function)
    requires Descending(s)
    ensures Descending(Insert(s, f))
  {
    if |s| > 0 && Last(s).total < f.total {
      var init := s[..|s| - 1];
      InsertDescending(init, f);
      InsertBound(init, f, Last(s).total);
    }
  }

  /** The function database of a binary. */
  class Table {
    var functions: seq<Function>
    const statistic: Statistic

    /** A table of the given functions, with a statistic of its own that has recorded nothing. */
    constructor (functions: seq<Function>)
      ensures this.functions == functions
      ensures fresh(statistic) && statistic.Valid() && statistic.history == []
    {
      this.functions := functions;
      statistic := new Statistic();
    }

    /** `append`: the function added at the end and handed back. */
    method Append(f: Function) returns (r: Function)
      modifies this
      ensures functions == old(functions) + [f] && r == f
    {
      functions := functions + [f];
      r := f;
    }

    /** `find`: the functions in order until one has the address; nothing when none has it. */
    method Find(address: int) returns (r: Option<Function>)
      ensures r == FindIn(functions, address)
    {
      for i := 0 to |functions|
        invariant forall j | 0 <= j < i :: functions[j].address != address
      {
        if functions[i].address == address {
          assert Locate(functions, address) == i;
          return Some(functions[i]);
        }
      }
      return None;
    }

    /** `del table[key]`: the first function `==` to `key` removed, or a `ValueError` and nothing changed. */
    method Delete(v: Variant, key: Function) returns (e: Option<Error>)
      modifies this`functions
      ensures match old(Remove(v, functions, key))
        case Ok(rest) => e.None? && functions == rest
        case Err(error) => e == Some(error) && functions == old(functions)
    {
      var r := Remove(v, functions, key);
      if r.Ok? {
        functions := r.value;
        e := None;
      } else {
        e := Some(r.error);
      }
    }

    /** `limit`: the largest total, and 0 when there is none above 0. */
    method Limit() returns (limit: int)
      ensures limit >= 0
      ensures forall i | 0 <= i < |functions| :: functions[i].total <= limit
      ensures limit == 0 || exists i | 0 <= i < |functions| :: functions[i].total == limit
    {
      limit := 0;
      for i := 0 to |functions|
        invariant limit >= 0
        invariant forall j | 0 <= j < i :: functions[j].total <= limit
        invariant limit == 0 || exists j | 0 <= j < i :: functions[j].total == limit
      {
        if functions[i].total > limit {
          limit := functions[i].total;
        }
      }
    }

    /** `sort`: the functions by total, the largest first. */
    method Sort()
      modifies this
      ensures Descending(functions) && multiset(functions) == multiset(old(functions))
    {
      var input := functions;
      var sorted: seq<Function> := [];
      for i := 0 to |input|
        invariant Descending(sorted) && multiset(sorted) == multiset(input[..i])
      {
        assert input[..i + 1] == input[..i] + [input[i]];
        InsertDescending(sorted, input[i]);
        sorted := Insert(sorted, input[i]);
      }
      assert input[..|input|] == input;
      functions := sorted;
    }
  }

  // ---------------------------------------------------------------------
  // The visitor

  /** The functions of `s` whose `visited` flag is clear, in order (`[c for c in s if not c.visited]`). */
  function Unvisited(s: seq<Function>): (r: seq<Function>)
    reads s
    ensures |r| <= |s|
    ensures forall x | x in r :: x in s && !x.visited
  {
    if |s| == 0 then []
    else
      var init := s[..|s| - 1];
      assert s == init + [Last(s)];
      if Last(s).visited then Unvisited(init) else Unvisited(init) + [Last(s)]
  }

  /** Every unvisited function of `s` is kept by `Unvisited`. */
  lemma {:induction false} UnvisitedComplete(s: seq<Function>, x: Function)
    requires x in s && !x.visited
    ensures x in Unvisited(s)
  {
    var init := s[..|s| - 1];
    assert s == init + [Last(s)];
    if x != Last(s) {
      UnvisitedComplete(init, x);
    }
  }

  ghost predicate Within(s: seq<Function>, domain: set<Function>) {
    forall i | 0 <= i < |s| :: s[i] in domain
  }

  /** Every function the functions of `universe` call is in `universe`. */
  ghost predicate Closed(universe: set<Function>)
    reads universe`calls
  {
    forall f, i | f in universe && 0 <= i < |f.calls| :: f.calls[i] in universe
  }

  /** What the walk reads of a function: its `==` key and its unvisited callees. */
  datatype Node = Node(key: Key, kids: seq<Function>)

  type Graph = map<Function, Node>

  /**
   * The walk reads the call graph only through `==` and `Unvisited`. A
   * snapshot of it maps each function of a set to what it reads.
   */
  ghost predicate Snapshot(g: Graph)
    reads *
  {
    forall f | f in g :: g[f] == Node(KeyOf(f), Unvisited(f.calls))
  }

  /** The unvisited callees of a function of `g` are functions of `g`. */
  ghost predicate Shut(g: Graph) {
    forall f, i | f in g && 0 <= i < |g[f].kids| :: g[f].kids[i] in g
  }

  /** The snapshot of a closed set of functions. */
  ghost function Children(universe: set<Function>): (g: Graph)
    requires Closed(universe)
    reads universe
    ensures g.Keys == universe && Snapshot(g) && Shut(g)
    ensures forall f, i | f in g && 0 <= i < |g[f].kids| :: g[f].kids[i] in f.calls && !g[f].kids[i].visited
  {
    var g := map f | f in universe :: Node(KeyOf(f), Unvisited(f.calls));
    assert forall f, i | f in g && 0 <= i < |g[f].kids| :: g[f].kids[i] in f.calls;
    g
  }

  /** The siblings left behind on entering a child of `parent`: its unvisited children but the last. */
  function Pending(g: Graph, parent: Function): seq<Function>
    requires parent in g
  {
    var c := g[parent].kids;
    if |c| == 0 then [] else c[..|c| - 1]
  }

  /** The queue entry left on entering a child of `parent`: its pending siblings, when there are any. */
  function Entry(g: Graph, parent: Function): seq<seq<Function>>
    requires parent in g
  {
    var p := Pending(g, parent);
    if |p| > 0 then [p] else []
  }

  /** Frame `k` of `stack` is the last unvisited child of frame `k - 1`. */
  predicate Entered(g: Graph, stack: seq<Function>, k: nat)
    requires 1 <= k < |stack|
  {
    stack[k - 1] in g && g[stack[k - 1]].kids != [] && stack[k] == Last(g[stack[k - 1]].kids)
  }

  /** The queue entries of frames `lo` to `hi - 1`, in order: entering frame `k` leaves the entry of frame `k - 1`. */
  function Queued(g: Graph, stack: seq<Function>, lo: nat, hi: nat): seq<seq<Function>>
    requires 1 <= lo && hi <= |stack|
    decreases hi - lo
  {
    if hi <= lo then []
    else (if stack[lo - 1] in g then Entry(g, stack[lo - 1]) else []) + Queued(g, stack, lo + 1, hi)
  }

  /** `list.index` on the snapshot: the first frame of `s` whose key is `Equal` to that of `key`, or the length. */
  function Seek(v: Variant, g: Graph, s: seq<Function>, key: Function): (i: nat)
    requires Within(s, g.Keys) && key in g
    ensures i <= |s|
  {
    if |s| == 0 then 0
    else if Equal(v, g[s[0]].key, g[key].key) then 0
    else 1 + Seek(v, g, s[1..], key)
  }

  /** On a snapshot, `Seek` is `Position`. */
  lemma {:induction false} SeekPosition(v: Variant, g: Graph, s: seq<Function>, key: Function)
    requires Snapshot(g) && Within(s, g.Keys) && key in g
    ensures Seek(v, g, s, key) == Position(v, s, key)
  {
    if |s| > 0 {
      SeekPosition(v, g, s[1..], key);
    }
  }

  /** Frame `k` of `stack` is `==` to no frame below it. */
  predicate Novel(v: Variant, g: Graph, stack: seq<Function>, k: nat)
    requires k < |stack| && Within(stack, g.Keys)
  {
    Seek(v, g, stack[..k], stack[k]) == k
  }

  /** The last frame of `stack`, above the first `n`, is `==` to an earlier frame. */
  predicate Repeats(v: Variant, g: Graph, stack: seq<Function>, n: nat)
    requires Within(stack, g.Keys)
  {
    |stack| > n && Seek(v, g, stack[..|stack| - 1], Last(stack)) < |stack| - 1
  }

  lemma WithinExtend(stack: seq<Function>, x: Function, domain: set<Function>)
    requires Within(stack, domain) && x in domain
    ensures Within(stack + [x], domain)
  {
    assert forall i | 0 <= i < |stack| :: (stack + [x])[i] == stack[i];
  }

  /** A function `==` to no frame of `stack` is not on it. */
  lemma SeekAbsent(v: Variant, g: Graph, stack: seq<Function>, x: Function)
    requires Within(stack, g.Keys) && x in g && Seek(v, g, stack, x) == |stack|
    ensures x !in stack
  {
    if |stack| > 0 && stack[0] != x {
      SeekAbsent(v, g, stack[1..], x);
    }
  }

  /** One more frame outside `stack` leaves fewer functions of `domain` off the stack. */
  lemma Shrinks(domain: set<Function>, stack: seq<Function>, x: Function)
    requires x in domain && x !in stack
    ensures |domain - (set f | f in stack + [x])| < |domain - (set f | f in stack)|
  {
    assert (domain - set f | f in stack + [x]) == (domain - set f | f in stack) - {x};
  }

  /**
   * The walk of `down` from `stack` on the snapshot `g`: the call stack and
   * the queue it ends with, when it starts with the queue `queue`.
   */
  ghost function Walk(v: Variant, g: Graph, stack: seq<Function>, queue: seq<seq<Function>>): (seq<Function>, seq<seq<Function>>)
    requires |stack| > 0 && Within(stack, g.Keys) && Shut(g)
    decreases |g.Keys - set f | f in stack|
  {
    var calls := g[Last(stack)].kids;
    if calls == [] then (stack, queue)
    else
      var next := Last(calls);
      if Seek(v, g, stack, next) < |stack| then (stack + [next], queue)
      else
        SeekAbsent(v, g, stack, next);
        Shrinks(g.Keys, stack, next);
        WithinExtend(stack, next, g.Keys);
        Walk(v, g, stack + [next], queue + Entry(g, Last(stack)))
  }

  /** One step of the walk: enter the last unvisited child of the tail. */
  lemma WalkStep(v: Variant, g: Graph, stack: seq<Function>, queue: seq<seq<Function>>)
    requires |stack| > 0 && Within(stack, g.Keys) && Shut(g) && g[Last(stack)].kids != []
    ensures var next := Last(g[Last(stack)].kids);
      && next in g && Within(stack + [next], g.Keys)
      && Entry(g, Last(stack)) == (if |Pending(g, Last(stack))| > 0 then [Pending(g, Last(stack))] else [])
      && (Seek(v, g, stack, next) < |stack| ==> Walk(v, g, stack, queue) == (stack + [next], queue))
      && (Seek(v, g, stack, next) == |stack| ==>
        && Walk(v, g, stack, queue) == Walk(v, g, stack + [next], queue + Entry(g, Last(stack)))
        && |g.Keys - set f | f in stack + [next]| < |g.Keys - set f | f in stack|)
  {
    var next := Last(g[Last(stack)].kids);
    WithinExtend(stack, next, g.Keys);
    if Seek(v, g, stack, next) == |stack| {
      SeekAbsent(v, g, stack, next);
      Shrinks(g.Keys, stack, next);
    }
  }

  /** The frames the rest of the walk pushes after its first step are those of the whole walk, but one. */
  lemma PathStep(v: Variant, g: Graph, stack: seq<Function>, s: seq<Function>)
    requires |stack| > 0 && Within(stack, g.Keys) && Shut(g) && g[Last(stack)].kids != []
    requires var next := Last(g[Last(stack)].kids);
      && |s| > |stack| && s[..|stack| + 1] == stack + [next] && Within(s, g.Keys)
      && Seek(v, g, stack, next) == |stack|
      && (forall k | |stack| + 1 <= k < |s| :: Entered(g, s, k))
      && (forall k | |stack| + 1 <= k < |s| - 1 :: Novel(v, g, s, k))
    ensures s[..|stack|] == stack
    ensures forall k | |stack| <= k < |s| :: Entered(g, s, k)
    ensures forall k | |stack| <= k < |s| - 1 :: Novel(v, g, s, k)
  {
    var n := |stack|;
    assert s[..n] == s[..n + 1][..n] == stack;
    assert s[n - 1] == s[..n + 1][n - 1] == Last(stack);
    assert s[n] == s[..n + 1][n];
    assert Entered(g, s, n);
    if |s| > n + 1 {
      assert Novel(v, g, s, n);
    }
  }

  /**
   * The walk only pushes frames, each the last unvisited child of the one
   * below, and none of them but the last is `==` to a frame below it.
   */
  lemma {:induction false} WalkPath(v: Variant, g: Graph, stack: seq<Function>, queue: seq<seq<Function>>)
    requires |stack| > 0 && Within(stack, g.Keys) && Shut(g)
    ensures var s := Walk(v, g, stack, queue).0;
      && |s| >= |stack| && s[..|stack|] == stack && Within(s, g.Keys)
      && (forall k | |stack| <= k < |s| :: Entered(g, s, k))
      && (forall k | |stack| <= k < |s| - 1 :: Novel(v, g, s, k))
    decreases |g.Keys - set f | f in stack|
  {
    var n := |stack|;
    if g[Last(stack)].kids == [] {
      assert stack[..n] == stack;
    } else {
      WalkStep(v, g, stack, queue);
      var next := Last(g[Last(stack)].kids);
      var stack' := stack + [next];
      assert stack'[..n] == stack && stack'[n - 1] == Last(stack);
      if Seek(v, g, stack, next) < n {
        assert stack'[..|stack'|] == stack';
        assert Entered(g, stack', n);
      } else {
        var queue' := queue + Entry(g, Last(stack));
        WalkPath(v, g, stack', queue');
        var s := Walk(v, g, stack', queue').0;
        assert s[..n + 1] == stack';
        PathStep(v, g, stack, s);
      }
    }
  }

  /**
   * The walk ends at a function without unvisited children or right after
   * a repeated one; from a tail without unvisited children it does nothing.
   */
  lemma {:induction false} WalkEnd(v: Variant, g: Graph, stack: seq<Function>, queue: seq<seq<Function>>)
    requires |stack| > 0 && Within(stack, g.Keys) && Shut(g)
    ensures var s := Walk(v, g, stack, queue).0;
      |s| > 0 && Within(s, g.Keys) && (g[Last(s)].kids == [] || Repeats(v, g, s, |stack|))
    ensures g[Last(stack)].kids == [] ==> Walk(v, g, stack, queue) == (stack, queue)
    decreases |g.Keys - set f | f in stack|
  {
    WalkPath(v, g, stack, queue);
    var n := |stack|;
    if g[Last(stack)].kids != [] {
      WalkStep(v, g, stack, queue);
      var next := Last(g[Last(stack)].kids);
      var stack' := stack + [next];
      if Seek(v, g, stack, next) < n {
        assert stack'[..|stack'| - 1] == stack;
      } else {
        var queue' := queue + Entry(g, Last(stack));
        WalkEnd(v, g, stack', queue');
        WalkPath(v, g, stack', queue');
      }
    }
  }

  /** The entries the rest of the walk queues after its first step follow the entry of that step. */
  lemma QueueStep(g: Graph, stack: seq<Function>, queue: seq<seq<Function>>, s: seq<Function>, q: seq<seq<Function>>, hi: nat)
    requires 0 < |stack| < hi <= |s| && s[|stack| - 1] == Last(stack) && Last(stack) in g
    requires q == queue + Entry(g, Last(stack)) + Queued(g, s, |stack| + 1, hi)
    ensures q == queue + Queued(g, s, |stack|, hi)
  {
    var rest := Queued(g, s, |stack| + 1, hi);
    assert Queued(g, s, |stack|, hi) == Entry(g, Last(stack)) + rest;
    assert queue + Entry(g, Last(stack)) + rest == queue + (Entry(g, Last(stack)) + rest);
  }

  /** Past a first step to a novel frame, the walk repeats a frame exactly when its rest does. */
  lemma RepeatsStep(v: Variant, g: Graph, stack: seq<Function>, s: seq<Function>)
    requires |stack| > 0 && Within(stack, g.Keys) && g[Last(stack)].kids != [] && Last(g[Last(stack)].kids) in g
    requires var next := Last(g[Last(stack)].kids);
      && |s| > |stack| && s[..|stack| + 1] == stack + [next] && Within(s, g.Keys)
      && Seek(v, g, stack, next) == |stack|
    ensures s[|stack| - 1] == Last(stack)
    ensures Repeats(v, g, s, |stack|) == Repeats(v, g, s, |stack| + 1)
    ensures Repeats(v, g, s, |stack|) ==> |s| - 1 > |stack|
  {
    var n := |stack|;
    assert s[..n] == s[..n + 1][..n] == stack;
    assert s[n - 1] == s[..n + 1][n - 1];
    assert s[n] == s[..n + 1][n];
    if |s| == n + 1 {
      assert s[..|s| - 1] == stack;
    }
  }

  /**
   * `q` is `queue` followed by the entries of frames `n` to the end of
   * `s`, save the last when that one is repeated.
   */
  ghost predicate QueueShape(v: Variant, g: Graph, n: nat, s: seq<Function>, queue: seq<seq<Function>>, q: seq<seq<Function>>) {
    && 1 <= n <= |s| && Within(s, g.Keys)
    && q == queue + Queued(g, s, n, if Repeats(v, g, s, n) then |s| - 1 else |s|)
  }

  /** After a first step to a novel frame, the entries the rest of the walk queues follow that of the step. */
  lemma QueueCompose(v: Variant, g: Graph, stack: seq<Function>, queue: seq<seq<Function>>, s: seq<Function>, q: seq<seq<Function>>)
    requires |stack| > 0 && Within(stack, g.Keys) && g[Last(stack)].kids != [] && Last(g[Last(stack)].kids) in g
    requires var next := Last(g[Last(stack)].kids);
      && |s| > |stack| && s[..|stack| + 1] == stack + [next]
      && Seek(v, g, stack, next) == |stack|
    requires QueueShape(v, g, |stack| + 1, s, queue + Entry(g, Last(stack)), q)
    ensures QueueShape(v, g, |stack|, s, queue, q)
  {
    RepeatsStep(v, g, stack, s);
    QueueStep(g, stack, queue, s, q, if Repeats(v, g, s, |stack|) then |s| - 1 else |s|);
  }

  /**
   * The walk queues, in order, the entry of every frame it entered save
   * the repeated one.
   */
  lemma {:induction false} WalkQueue(v: Variant, g: Graph, stack: seq<Function>, queue: seq<seq<Function>>)
    requires |stack| > 0 && Within(stack, g.Keys) && Shut(g)
    ensures QueueShape(v, g, |stack|, Walk(v, g, stack, queue).0, queue, Walk(v, g, stack, queue).1)
    decreases |g.Keys - set f | f in stack|
  {
    var n := |stack|;
    if g[Last(stack)].kids == [] {
      assert Walk(v, g, stack, queue) == (stack, queue);
      assert !Repeats(v, g, stack, n);
      assert queue + Queued(g, stack, n, n) == queue;
    } else {
      WalkStep(v, g, stack, queue);
      var next := Last(g[Last(stack)].kids);
      var stack' := stack + [next];
      if Seek(v, g, stack, next) < n {
        assert stack'[..|stack'| - 1] == stack;
        assert Repeats(v, g, stack', n);
        assert queue + Queued(g, stack', n, n) == queue;
      } else {
        var queue' := queue + Entry(g, Last(stack));
        WalkQueue(v, g, stack', queue');
        WalkPath(v, g, stack', queue');
        QueueCompose(v, g, stack, queue, Walk(v, g, stack', queue').0, Walk(v, g, stack', queue').1);
      }
    }
  }

  /** Every queue entry is non-empty, and holds only functions of the snapshot. */
  lemma {:induction false} QueuedEntries(g: Graph, stack: seq<Function>, lo: nat, hi: nat)
    requires 1 <= lo && hi <= |stack| && Shut(g)
    ensures forall i | 0 <= i < |Queued(g, stack, lo, hi)| ::
      |Queued(g, stack, lo, hi)[i]| > 0 && Within(Queued(g, stack, lo, hi)[i], g.Keys)
    decreases hi - lo
  {
    if lo < hi {
      QueuedEntries(g, stack, lo + 1, hi);
      if stack[lo - 1] in g {
        var p := Pending(g, stack[lo - 1]);
        assert forall i | 0 <= i < |p| :: p[i] == g[stack[lo - 1]].kids[i];
      }
    }
  }

  lemma AppendEntries(queue: seq<seq<Function>>, extra: seq<seq<Function>>, domain: set<Function>)
    requires forall i | 0 <= i < |queue| :: Within(queue[i], domain)
    requires forall i | 0 <= i < |extra| :: |extra[i]| > 0 && Within(extra[i], domain)
    ensures forall i | 0 <= i < |queue + extra| :: Within((queue + extra)[i], domain)
    ensures forall i | |queue| <= i < |queue + extra| :: |(queue + extra)[i]| > 0
  {
    assert forall i | |queue| <= i < |queue + extra| :: (queue + extra)[i] == extra[i - |queue|];
  }

  /** The call stack without its tail. */
  function Popped(s: seq<Function>): seq<Function> {
    if |s| > 0 then s[..|s| - 1] else s
  }

  /** Every entry of the queue is within `universe`. */
  ghost predicate Queueing(queue: seq<seq<Function>>, universe: set<Function>) {
    forall i | 0 <= i < |queue| :: Within(queue[i], universe)
  }

  /** Replacing or deleting a queue entry keeps the queue within `universe`. */
  lemma QueueWithin(queue: seq<seq<Function>>, tier: nat, q: seq<Function>, universe: set<Function>)
    requires tier < |queue| && Within(q, universe) && Queueing(queue, universe)
    ensures Queueing(queue[tier := q], universe)
    ensures Queueing(queue[..tier] + queue[tier + 1..], universe)
  {
    var d := queue[..tier] + queue[tier + 1..];
    forall i | 0 <= i < |d| ensures Within(d[i], universe) {
      if i < tier {
        assert d[i] == queue[i];
      } else {
        assert d[i] == queue[i + 1];
      }
    }
  }

  /** The number of functions waiting in the queue. */
  function Total(q: seq<seq<Function>>): nat {
    if |q| == 0 then 0 else Total(q[..|q| - 1]) + |Last(q)|
  }

  lemma {:induction false} TotalConcat(a: seq<seq<Function>>, b: seq<seq<Function>>)
    ensures Total(a + b) == Total(a) + Total(b)
    decreases |b|
  {
    if |b| > 0 {
      assert (a + b)[..|a + b| - 1] == a + b[..|b| - 1];
      TotalConcat(a, b[..|b| - 1]);
    } else {
      assert a + b == a;
    }
  }

  /** Replacing or dropping entry `tier` changes the number of waiting functions by the difference. */
  lemma TotalAt(queue: seq<seq<Function>>, tier: nat, q: seq<Function>)
    requires tier < |queue|
    ensures Total(queue[tier := q]) == Total(queue) - |queue[tier]| + |q|
    ensures Total(queue[..tier] + queue[tier + 1..]) == Total(queue) - |queue[tier]|
  {
    assert queue == queue[..tier] + [queue[tier]] + queue[tier + 1..];
    assert queue[tier := q] == queue[..tier] + [q] + queue[tier + 1..];
    TotalConcat(queue[..tier] + [queue[tier]], queue[tier + 1..]);
    TotalConcat(queue[..tier], [queue[tier]]);
    TotalConcat(queue[..tier] + [q], queue[tier + 1..]);
    TotalConcat(queue[..tier], [q]);
    TotalConcat(queue[..tier], queue[tier + 1..]);
  }

  /** The walk of `Visitor.Down`, on a call stack and a queue given as values. */
  method Descend(v: Variant, callstack: seq<Function>, queue: seq<seq<Function>>, ghost g: Graph)
    returns (stack: seq<Function>, pending: seq<seq<Function>>)
    requires |callstack| > 0 && Snapshot(g) && Shut(g) && Within(callstack, g.Keys)
    ensures (stack, pending) == Walk(v, g, callstack, queue)
  {
    stack, pending := callstack, queue;
    var calls := Unvisited(Last(stack).calls);
    while |calls| > 0
      invariant |stack| > 0 && Within(stack, g.Keys)
      invariant calls == g[Last(stack)].kids
      invariant Walk(v, g, callstack, queue) == Walk(v, g, stack, pending)
      decreases |g.Keys - set f | f in stack|
    {
      var before, queued := stack, pending;
      var next := calls[|calls| - 1];
      calls := calls[..|calls| - 1];
      WalkStep(v, g, before, queued);
      SeekPosition(v, g, before, next);
      stack := before + [next];
      if Position(v, before, next) < |before| {
        break;
      }
      if |calls| > 0 {
        pending := pending + [calls];
      }
      assert pending == queued + Entry(g, Last(before));
      calls := Unvisited(next.calls);
    }
  }

  /**
   * Walks the tree of calls: `callstack` is the path to the current
   * function, and `queue[k]` holds functions still to be visited once the
   * walk comes back to depth `k`.
   */
  class Visitor {
    var callstack: seq<Function>
    var queue: seq<seq<Function>>

    /** The last entrance is the start; the others wait in the first queue entry. */
    constructor (v: Variant, entrances: seq<Function>, ghost universe: set<Function>)
      ensures |entrances| > 0 ==> callstack == [Last(entrances)] && queue == [entrances[..|entrances| - 1]]
      ensures |entrances| == 0 ==> callstack == [] && queue == (if v == Package then [[]] else [])
      ensures Within(entrances, universe) ==> Inside(universe)
    {
      if |entrances| > 0 {
        callstack := [Last(entrances)];
        queue := [entrances[..|entrances| - 1]];
      } else {
        callstack := [];
        queue := if v == Package then [[]] else [];
      }
    }

    ghost predicate Inside(universe: set<Function>)
      reads this
    {
      Within(callstack, universe) && Queueing(queue, universe)
    }

    /**
     * `down`: walks from the tail into its last unvisited child, and on
     * into that child's last unvisited child, leaving the other unvisited
     * children as one queue entry per step when there are any; it stops at
     * a function without unvisited children, or right after entering a
     * function that is `==` to one already on the call stack.
     */
    method Down(v: Variant, ghost g: Graph) returns (tail: Function)
      requires |callstack| > 0 && Inside(g.Keys) && Snapshot(g) && Shut(g)
      modifies this
      ensures (callstack, queue) == Walk(v, g, old(callstack), old(queue))
      ensures |callstack| >= |old(callstack)| && callstack[..|old(callstack)|] == old(callstack)
      ensures Inside(g.Keys) && tail == Last(callstack)
      ensures forall i | |old(queue)| <= i < |queue| :: |queue[i]| > 0
      ensures |callstack| == |old(callstack)| ==> queue == old(queue)
      ensures |callstack| > |old(callstack)| ==> Entered(g, callstack, |callstack| - 1)
    {
      ghost var n := |callstack|;
      var stack, pending := Descend(v, callstack, queue, g);
      WalkPath(v, g, callstack, queue);
      WalkQueue(v, g, callstack, queue);
      ghost var hi := if Repeats(v, g, stack, n) then |stack| - 1 else |stack|;
      QueuedEntries(g, stack, n, hi);
      AppendEntries(queue, Queued(g, stack, n, hi), g.Keys);
      if |stack| == n {
        assert Queued(g, stack, n, hi) == [];
      }
      callstack, queue := stack, pending;
      tail := Last(stack);
    }

    /**
     * `up`: leaves the tail; then, when the queue has an entry at the new
     * depth, enters its last function and drops the entry once it is
     * empty. The tail is handed back, or nothing when the call stack is
     * empty. The functions on the call stack and in the queue stay
     * within any set (`universe`, proof-only) they were within.
     */
    method Up(ghost universe: set<Function>) returns (r: Option<Function>)
      modifies this
      ensures var s := Popped(old(callstack));
        if |s| < |old(queue)| then
          var q := old(queue)[|s|];
          && callstack == (if |q| > 0 then s + [Last(q)] else s)
          && queue == (if |q| > 1 then old(queue)[|s| := q[..|q| - 1]] else old(queue)[..|s|] + old(queue)[|s| + 1..])
        else callstack == s && queue == old(queue)
      ensures r == if |callstack| > 0 then Some(Last(callstack)) else None
      ensures |callstack| + Total(queue) == |old(callstack)| + Total(old(queue)) - (if |old(callstack)| > 0 then 1 else 0)
      ensures old(Inside(universe)) ==> Inside(universe)
    {
      ghost var inside := Inside(universe);
      if |callstack| > 0 {
        callstack := callstack[..|callstack| - 1];
      }
      var tier := |callstack|;
      if tier < |queue| {
        var q := queue[tier];
        if |q| > 0 {
          callstack := callstack + [Last(q)];
          q := q[..|q| - 1];
        }
        TotalAt(queue, tier, q);
        if inside {
          QueueWithin(queue, tier, q, universe);
        }
        if |q| > 0 {
          queue := queue[tier := q];
        } else {
          queue := queue[..tier] + queue[tier + 1..];
        }
      }
      r := if |callstack| > 0 then Some(Last(callstack)) else None;
    }
  }
}
