/**
 Ordering of `dep` versions, as used by a `>=` requirement.

 A version is reduced to a key: the numeric values of its release segments
 and its prerelease tag, after the `v` prefix and the `+incompatible`
 marker are dropped (neither carries ordering weight). Keys compare by
 release first, with missing trailing segments read as 0; on equal releases
 a version without a tag is above one with a tag, and two tags compare
 identifier by identifier as in section 11 of Semantic Versioning 2.0.0.
 Strings that are not valid versions still get a key: whatever the release
 scan leaves unread is read as a tag, so comparison is total.
 */
module VersionOrder {
  import opened Text
  import opened Wrappers
  import opened Ordering
  import opened DepVersion

  /** What ordering looks at. */
  datatype Key = Key(release: seq<nat>, pre: Option<string>)

  /** The numeric values of digit strings. */
  function Values(segs: seq<string>): (r: seq<nat>)
    requires forall k :: 0 <= k < |segs| ==> AllDigits(segs[k])
    ensures |r| == |segs|
    ensures forall k :: 0 <= k < |segs| ==> r[k] == Value(segs[k])
  {
    if segs == [] then [] else [Value(segs[0])] + Values(segs[1..])
  }

  /** The tag the unread rest of a scan stands for. */
  function TagOf(rest: string): Option<string> {
    if rest == [] then None
    else if IsSeparator(rest[0]) then Some(rest[1..])
    else Some(rest)
  }

  function KeyOf(s: string): Key {
    var scan := ScanRelease(Core(s));
    Key(Values(scan.0), TagOf(scan.1))
  }

  function Head(a: seq<nat>): nat {
    if a == [] then 0 else a[0]
  }

  function Rest(a: seq<nat>): seq<nat> {
    if a == [] then [] else a[1..]
  }

  /** Release segments compare numerically, most significant first; a
      missing segment counts as 0. */
  function CompareRelease(a: seq<nat>, b: seq<nat>): Cmp
    decreases |a| + |b|
  {
    if a == [] && b == [] then Equal
    else
      var c := CompareNat(Head(a), Head(b));
      if c != Equal then c else CompareRelease(Rest(a), Rest(b))
  }

  /** One prerelease identifier against another: numeric identifiers by
      value and below alphanumeric ones, alphanumeric ones by character. */
  function CompareIdent(x: string, y: string): Cmp {
    var nx := IsNumeric(x);
    var ny := IsNumeric(y);
    if nx && ny then CompareNat(Value(x), Value(y))
    else if nx then Less
    else if ny then Greater
    else Lex(x, y, CompareChar)
  }

  /** Tags compare by their `.`-separated identifiers. */
  function CompareTags(x: string, y: string): Cmp {
    Lex(Split(x, '.'), Split(y, '.'), CompareIdent)
  }

  /** No tag is above any tag. */
  function ComparePre(x: Option<string>, y: Option<string>): Cmp {
    match (x, y)
    case (None, None) => Equal
    case (None, Some(_)) => Greater
    case (Some(_), None) => Less
    case (Some(s), Some(t)) => CompareTags(s, t)
  }

  function CompareKeys(x: Key, y: Key): Cmp {
    var r := CompareRelease(x.release, y.release);
    if r != Equal then r else ComparePre(x.pre, y.pre)
  }

  /** `<=>` on versions. */
  function Compare(a: Version, b: Version): Cmp {
    CompareKeys(KeyOf(a.raw), KeyOf(b.raw))
  }

  /** The requirement `>= bound` accepts `v`. */
  predicate SatisfiesGe(v: Version, bound: Version) {
    Compare(v, bound) != Less
  }

  // ----- release comparison against zero-padded lexicographic order -----

  function Zeros(n: nat): (z: seq<nat>)
    ensures |z| == n
    ensures forall k :: 0 <= k < n ==> z[k] == 0
  {
    if n == 0 then [] else [0] + Zeros(n - 1)
  }

  /** `a` extended with zeros to length `n`. */
  function Pad(a: seq<nat>, n: nat): (r: seq<nat>)
    requires |a| <= n
    ensures |r| == n
  {
    a + Zeros(n - |a|)
  }

  /** Release comparison is lexicographic comparison after padding both
      releases with zeros to any common length. */
  lemma {:induction false} CompareReleaseIsPaddedLex(a: seq<nat>, b: seq<nat>, n: nat)
    requires |a| <= n && |b| <= n
    ensures CompareRelease(a, b) == Lex(Pad(a, n), Pad(b, n), CompareNat)
    decreases n
  {
    CompareNatPreorder();
    if a == [] && b == [] {
      assert Pad(a, n) == Pad(b, n);
      LexReflexive(Pad(a, n), CompareNat);
    } else {
      assert n > 0;
      PadCons(a, n);
      PadCons(b, n);
      if CompareNat(Head(a), Head(b)) == Equal {
        CompareReleaseIsPaddedLex(Rest(a), Rest(b), n - 1);
      }
    }
  }

  lemma {:induction false} PadCons(a: seq<nat>, n: nat)
    requires |a| <= n && n > 0
    ensures Pad(a, n)[0] == Head(a)
    ensures Pad(a, n)[1..] == Pad(Rest(a), n - 1)
  {
    if a == [] {
      assert Zeros(n)[1..] == Zeros(n - 1);
    } else {
      assert (a + Zeros(n - |a|))[1..] == a[1..] + Zeros(n - |a|);
    }
  }

  /** Trailing zero segments carry no weight: `1.0` and `1.0.0` are equal. */
  lemma {:induction false} TrailingZeroIgnored(a: seq<nat>, b: seq<nat>)
    ensures CompareRelease(a + [0], b) == CompareRelease(a, b)
    decreases |a| + |b|
  {
    if a == [] {
      assert [] + [0] == [0];
      ZeroAgainst(b);
    } else {
      assert Head(a + [0]) == Head(a);
      assert Rest(a + [0]) == Rest(a) + [0];
      if CompareNat(Head(a), Head(b)) == Equal {
        TrailingZeroIgnored(Rest(a), Rest(b));
      }
    }
  }

  lemma {:induction false} ZeroAgainst(b: seq<nat>)
    ensures CompareRelease([0], b) == CompareRelease([], b)
  {
    if b != [] {
      assert Rest([0]) == [];
    }
  }

  lemma ReleasePreorder()
    ensures TotalPreorder(CompareRelease)
  {
    CompareNatPreorder();
    forall a: seq<nat> ensures CompareRelease(a, a) == Equal {
      CompareReleaseIsPaddedLex(a, a, |a|);
      LexReflexive(Pad(a, |a|), CompareNat);
    }
    forall a: seq<nat>, b: seq<nat> ensures CompareRelease(a, b) == Flip(CompareRelease(b, a)) {
      var n := if |a| < |b| then |b| else |a|;
      CompareReleaseIsPaddedLex(a, b, n);
      CompareReleaseIsPaddedLex(b, a, n);
      LexAntisymmetric(Pad(a, n), Pad(b, n), CompareNat);
    }
    forall a: seq<nat>, b: seq<nat>, c: seq<nat>
      | CompareRelease(a, b) != Greater && CompareRelease(b, c) != Greater
      ensures CompareRelease(a, c) != Greater
    {
      var n := if |a| < |b| then |b| else |a|;
      n := if n < |c| then |c| else n;
      CompareReleaseIsPaddedLex(a, b, n);
      CompareReleaseIsPaddedLex(b, c, n);
      CompareReleaseIsPaddedLex(a, c, n);
      LexTransitive(Pad(a, n), Pad(b, n), Pad(c, n), CompareNat);
    }
  }

  // ----- prerelease comparison -----

  lemma IdentPreorder()
    ensures TotalPreorder(CompareIdent)
  {
    CompareNatPreorder();
    CompareCharPreorder();
    forall x: string ensures CompareIdent(x, x) == Equal {
      LexReflexive(x, CompareChar);
    }
    forall x: string, y: string ensures CompareIdent(x, y) == Flip(CompareIdent(y, x)) {
      LexAntisymmetric(x, y, CompareChar);
    }
    forall x: string, y: string, z: string
      | CompareIdent(x, y) != Greater && CompareIdent(y, z) != Greater
      ensures CompareIdent(x, z) != Greater
    {
      if !IsNumeric(x) && !IsNumeric(y) && !IsNumeric(z) {
        LexTransitive(x, y, z, CompareChar);
      }
    }
  }

  lemma PrePreorder()
    ensures TotalPreorder(ComparePre)
  {
    IdentPreorder();
    forall x: Option<string> ensures ComparePre(x, x) == Equal {
      if x.Some? {
        LexReflexive(Split(x.value, '.'), CompareIdent);
      }
    }
    forall x: Option<string>, y: Option<string> ensures ComparePre(x, y) == Flip(ComparePre(y, x)) {
      if x.Some? && y.Some? {
        LexAntisymmetric(Split(x.value, '.'), Split(y.value, '.'), CompareIdent);
      }
    }
    forall x: Option<string>, y: Option<string>, z: Option<string>
      | ComparePre(x, y) != Greater && ComparePre(y, z) != Greater
      ensures ComparePre(x, z) != Greater
    {
      if x.Some? && y.Some? && z.Some? {
        LexTransitive(Split(x.value, '.'), Split(y.value, '.'), Split(z.value, '.'), CompareIdent);
      }
    }
  }

  /** A tag extended by further identifiers sorts above it
      (`alpha` is below `alpha.1`). */
  lemma {:induction false} TagExtensionAbove(x: string, y: string)
    ensures CompareTags(x, x + "." + y) == Less
  {
    IdentPreorder();
    SplitAppend(x, y, '.');
    LexPrefix(Split(x, '.'), Split(y, '.'), CompareIdent);
  }

  lemma KeysPreorder()
    ensures TotalPreorder(CompareKeys)
  {
    ReleasePreorder();
    PrePreorder();
    forall x: Key, y: Key, z: Key
      | CompareKeys(x, y) != Greater && CompareKeys(y, z) != Greater
      ensures CompareKeys(x, z) != Greater
    {
      var r1 := CompareRelease(x.release, y.release);
      var r2 := CompareRelease(y.release, z.release);
      if r1 == Equal && r2 == Equal {
        HeadsEqual(x.release, y.release, z.release, CompareRelease);
      } else {
        HeadsStrict(x.release, y.release, z.release, CompareRelease);
      }
    }
  }

  // ----- laws of `Compare` on versions -----

  /** Every version, valid or not, is equal to itself. */
  lemma {:induction false} CompareReflexive(a: Version)
    ensures Compare(a, a) == Equal
  {
    KeysPreorder();
  }

  /** Swapping the operands flips the answer. */
  lemma {:induction false} CompareAntisymmetric(a: Version, b: Version)
    ensures Compare(a, b) == Flip(Compare(b, a))
  {
    KeysPreorder();
  }

  lemma {:induction false} CompareTransitive(a: Version, b: Version, c: Version)
    requires Compare(a, b) != Greater && Compare(b, c) != Greater
    ensures Compare(a, c) != Greater
  {
    KeysPreorder();
  }

  /** A version at or above something at or above the bound also satisfies
      `>= bound`. */
  lemma {:induction false} SatisfiesGeUpward(v: Version, w: Version, bound: Version)
    requires SatisfiesGe(v, bound)
    requires Compare(w, v) != Less
    ensures SatisfiesGe(w, bound)
  {
    CompareAntisymmetric(w, v);
    CompareAntisymmetric(v, bound);
    CompareAntisymmetric(w, bound);
    CompareTransitive(bound, v, w);
  }

  // ----- what carries no ordering weight -----

  /** Removing the marker again after appending it gives the original. */
  lemma {:induction false} CoreWithMarker(s: string)
    requires !EndsWith(s, Incompatible)
    ensures Core(s + Incompatible) == Core(s)
  {
    StripVAppend(s, Incompatible);
    NoMarkerAfterStripV(s);
    StripMarkerAppended(StripV(s));
  }

  /** Removing a leading `v` commutes with appending text that does not
      start with one. */
  lemma {:induction false} StripVAppend(s: string, t: string)
    requires !HasV(t)
    ensures StripV(s + t) == StripV(s) + t
  {
    if HasV(s) {
      assert (s + t)[1..] == s[1..] + t;
    }
  }

  lemma {:induction false} NoMarkerAfterStripV(s: string)
    requires !EndsWith(s, Incompatible)
    ensures !EndsWith(StripV(s), Incompatible)
  {
    if HasV(s) && |Incompatible| <= |StripV(s)| {
      assert s[|s| - |Incompatible|..] == StripV(s)[|StripV(s)| - |Incompatible|..];
    }
  }

  /** A leading `v` does not change a version's place in the order. */
  lemma {:induction false} CompareIgnoresV(s: string, other: Version)
    requires !HasV(s)
    ensures Compare(Version("v" + s), other) == Compare(Version(s), other)
  {
    assert StripV("v" + s) == s;
  }

  /** Neither does a trailing `+incompatible`. */
  lemma {:induction false} CompareIgnoresIncompatible(s: string, other: Version)
    requires !EndsWith(s, Incompatible)
    ensures Compare(Version(s + Incompatible), other) == Compare(Version(s), other)
  {
    CoreWithMarker(s);
  }

  /** On a valid version the key is read off its decomposition. */
  lemma {:induction false} KeyOfParsed(s: string, p: Parsed)
    requires Parse(s) == Some(p)
    ensures KeyOf(s).release == Values(p.release)
    ensures KeyOf(s).pre == (if p.pre.Some? then Some(p.pre.value.tag) else None)
  {
    assert WellFormed(p) && Render(p) == s;
    if p.release != [] {
      ScanRendered(p);
    }
  }

  /** A greater release outranks whatever prerelease tags either side has
      (`1.1.0-pre` is above `1.0.0`). */
  lemma {:induction false} ReleaseDominates(a: string, b: string, p: Parsed, q: Parsed)
    requires Parse(a) == Some(p) && Parse(b) == Some(q)
    requires CompareRelease(Values(p.release), Values(q.release)) == Greater
    ensures Compare(Version(a), Version(b)) == Greater
  {
    KeyOfParsed(a, p);
    KeyOfParsed(b, q);
  }

  /** A prerelease sorts below the release it is a prerelease of. */
  lemma {:induction false} PrereleaseBelowRelease(a: string, b: string, p: Parsed, q: Parsed)
    requires Parse(a) == Some(p) && Parse(b) == Some(q)
    requires CompareRelease(Values(p.release), Values(q.release)) == Equal
    requires p.pre.Some? && q.pre.None?
    ensures Compare(Version(a), Version(b)) == Less
  {
    KeyOfParsed(a, p);
    KeyOfParsed(b, q);
  }

  /** The display form of a valid version is ordered like the version. */
  lemma {:induction false} DisplayKeepsOrder(s: string)
    requires IsValid(s)
    ensures Compare(Version(Display(Version(s))), Version(s)) == Equal
  {
    KeysPreorder();
    if HasV(s) {
      var d := Display(Version(s));
      assert "v" + d == s;
      DisplayNotPrefixed(s);
      CompareIgnoresV(d, Version(s));
      CompareReflexive(Version(s));
    } else {
      CompareReflexive(Version(s));
    }
  }

  // ----- where the empty string sits -----

  /** An empty release is at or below every release. */
  lemma {:induction false} EmptyReleaseLowest(b: seq<nat>)
    ensures CompareRelease([], b) != Greater
    decreases |b|
  {
    if b != [] && Head(b) == 0 {
      EmptyReleaseLowest(Rest(b));
    }
  }

  /** The empty version is at or below every valid version without a tag.
      It is not below everything: a prerelease such as `0-a` sorts below it
      (see `EmptyAbovePrerelease`). */
  lemma {:induction false} EmptyPlacement(s: string, p: Parsed)
    requires Parse(s) == Some(p) && p.pre.None?
    ensures Compare(Version(""), Version(s)) != Greater
  {
    KeyOfEmpty();
    KeyOfParsed(s, p);
    EmptyReleaseLowest(Values(p.release));
  }

  /** The empty version is level with `0`: missing fields count as 0. */
  lemma EmptyLevelWithZero()
    ensures Compare(Version(""), Version("0")) == Equal
  {
    KeyOfEmpty();
    KeyOfZero();
  }

  /** `0-a` sorts below the empty version. */
  lemma EmptyAbovePrerelease()
    ensures Compare(Version("0-a"), Version("")) == Less
  {
    KeyOfEmpty();
    KeyOfZeroA();
  }

  lemma KeyOfEmpty()
    ensures KeyOf("") == Key([], None)
  {
    assert Core("") == "";
  }

  lemma KeyOfZero()
    ensures KeyOf("0") == Key([0], None)
  {
    assert Core("0") == "0" + "";
    ScanStop("0", "");
    assert Value("0") == 0;
  }

  lemma KeyOfZeroA()
    ensures KeyOf("0-a") == Key([0], Some("a"))
  {
    assert Core("0-a") == "0" + "-a";
    ScanStop("0", "-a");
    assert Value("0") == 0;
  }
}
