/**
 * The architectures the analysis knows, the two generations of the
 * analyser (the `stacklimit` package and the older single-file script),
 * and the normaliser that turns an architecture name reported by a tool
 * into one of them.
 */
module Architecture {
  import opened Wrappers
  import opened Text

  datatype Arch = Arm | AArch64 | X86 | X86_64

  /** The package, or the older single-file copy whose rules differ in places. */
  datatype Variant = Package | Legacy

  /** The name each architecture has in the list of supported ones. */
  function Name(a: Arch): (n: string)
    ensures |n| >= 3
  {
    match a
    case Arm => "arm"
    case AArch64 => "aarch64"
    case X86 => "x86"
    case X86_64 => "x86_64"
  }

  /** The supported architectures, in the order they are tried. */
  const SUPPORTED: seq<Arch> := [Arm, AArch64, X86, X86_64]

  /** Lower case, with `-` turned into `_`. */
  function Normalise(s: string): (n: string)
    ensures |n| == |s|
  {
    ReplaceChar(ToLower(s), '-', '_')
  }

  /**
   * A normalised name selects `a` when it is `a`'s name, or when `a`'s name
   * starts with `x` and the rest of it occurs in the normalised name and
   * ends in the same character.
   */
  predicate Selects(n: string, a: Arch) {
    || n == Name(a)
    || (Name(a)[0] == 'x' && |n| > 0 && Contains(n, Name(a)[1..]) && Last(Name(a)) == Last(n))
  }

  /** The first of `candidates` that `n` selects. */
  function FirstSelected(n: string, candidates: seq<Arch>): (r: Option<Arch>)
    ensures r.Some? ==> exists i :: 0 <= i < |candidates| && candidates[i] == r.value && Selects(n, r.value)
                                      && forall j :: 0 <= j < i ==> !Selects(n, candidates[j])
    ensures r.None? <==> forall j :: 0 <= j < |candidates| ==> !Selects(n, candidates[j])
  {
    if |candidates| == 0 then None
    else if Selects(n, candidates[0]) then Some(candidates[0])
    else
      var r := FirstSelected(n, candidates[1..]);
      assert forall j :: 1 <= j < |candidates| ==> candidates[j] == candidates[1..][j - 1];
      r
  }

  /** `get_arch`: nothing for a missing or empty name. */
  function GetArch(s: Option<string>): (r: Option<Arch>)
  {
    if s.None? || |s.value| == 0 then None
    else FirstSelected(Normalise(s.value), SUPPORTED)
  }

  /** The search over the supported architectures, written out. */
  lemma FirstSelectedSupported(n: string)
    ensures FirstSelected(n, SUPPORTED) ==
      if Selects(n, Arm) then Some(Arm)
      else if Selects(n, AArch64) then Some(AArch64)
      else if Selects(n, X86) then Some(X86)
      else if Selects(n, X86_64) then Some(X86_64)
      else None
  {
    var s1, s2, s3: seq<Arch> := [AArch64, X86, X86_64], [X86, X86_64], [X86_64];
    assert SUPPORTED[1..] == s1 && s1[1..] == s2 && s2[1..] == s3 && s3[1..] == [];
    assert FirstSelected(n, s3) == if Selects(n, X86_64) then Some(X86_64) else None;
    assert FirstSelected(n, s2) == if Selects(n, X86) then Some(X86) else FirstSelected(n, s3);
    assert FirstSelected(n, s1) == if Selects(n, AArch64) then Some(AArch64) else FirstSelected(n, s2);
  }

  /** A name without upper-case letters and dashes is already normal. */
  lemma NormaliseIdle(s: string)
    requires forall i :: 0 <= i < |s| ==> !('A' <= s[i] <= 'Z') && s[i] != '-'
    ensures Normalise(s) == s
  {
    assert ToLower(s) == s;
  }

  /** Every supported name is recognised as itself. */
  lemma GetArchName(a: Arch)
    ensures GetArch(Some(Name(a))) == Some(a)
  {
    var n := Name(a);
    NormaliseIdle(n);
    FirstSelectedSupported(n);
    SelectsName(a);
  }

  /** A supported name selects its own architecture and none listed before it. */
  lemma SelectsName(a: Arch)
    ensures Selects(Name(a), a)
    ensures a != Arm ==> !Selects(Name(a), Arm)
    ensures a != Arm && a != AArch64 ==> !Selects(Name(a), AArch64)
    ensures a == X86_64 ==> !Selects(Name(a), X86)
  {
    assert Name(Arm)[0] == 'a' && Name(AArch64)[0] == 'a';
    if a == X86_64 {
      assert Last(Name(X86)) == '6' && Last(Name(a)) == '4';
    }
  }

  /** An empty or missing name is not an architecture. */
  lemma GetArchEmpty()
    ensures GetArch(None) == None && GetArch(Some("")) == None
  {
  }

  /**
   * Any name that contains `86` and ends in `6` is x86, whatever its case
   * and its other characters (so `80386` and `i686` are x86).
   */
  lemma GetArchX86(s: string)
    requires Contains(Normalise(s), "86") && Last(Normalise(s)) == '6'
    ensures GetArch(Some(s)) == Some(X86)
  {
    var n := Normalise(s);
    FirstSelectedSupported(n);
    assert n != "arm" && n != "aarch64" by {
      assert Last("arm") == 'm' && Last("aarch64") == '4';
    }
    assert Name(Arm)[0] == 'a' && Name(AArch64)[0] == 'a';
    assert Name(X86)[1..] == "86";
    assert Selects(n, X86);
  }

  /** `80386` is x86. */
  lemma GetArch80386()
    ensures GetArch(Some("80386")) == Some(X86)
  {
    var s := "80386";
    NormaliseIdle(s);
    assert StartsAt(s, 3, "86");
    GetArchX86(s);
  }

  /** `X86-64` normalises to the name of x86_64. */
  lemma GetArchUpperDash()
    ensures GetArch(Some("X86-64")) == Some(X86_64)
  {
    var s := "X86-64";
    var l := ToLower(s);
    assert l[0] == 'x' && l[1..] == s[1..];
    assert Normalise(s) == Name(X86_64);
    GetArchName(X86_64);
  }

  /** A selected architecture is named by the input, or is an x-architecture whose name's tail the input contains. */
  lemma GetArchSound(s: string, a: Arch)
    requires GetArch(Some(s)) == Some(a)
    ensures Normalise(s) == Name(a) || ((a == X86 || a == X86_64) && Contains(Normalise(s), Name(a)[1..]))
  {
  }
}
