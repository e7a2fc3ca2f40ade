/**
 The textual side of the Go `dep` version type: which strings are versions
 (`Version.correct?`), how a string decomposes into an optional `v` prefix,
 a dotted numeric release, an optional prerelease tag and an optional
 `+incompatible` marker, and the display form (`to_s`).

 Grammar of a valid version (the empty string is also valid):

     [v] digits ('.' digits)* [ ('.' | '-') tag ] ['+incompatible']

 where `tag` is non-empty and contains no whitespace. The release is read
 greedily: a `.`-field made only of digits (ending at the end, a `.` or a
 `-`) still belongs to the release, so a `.`-introduced tag never starts
 with such a field.
 */
module DepVersion {
  import opened Text
  import opened Wrappers

  /** A version value: the exact text it was constructed from. Construction
      never fails; validity is the separate predicate `IsValid`. */
  datatype Version = Version(raw: string)

  datatype Prerelease = Prerelease(sep: char, tag: string)

  /** A decomposed version string. `release` holds the digit strings of the
      dotted release exactly as written. */
  datatype Parsed = Parsed(prefixed: bool, release: seq<string>, pre: Option<Prerelease>, incompatible: bool)

  /** The decomposition of the empty string. */
  const Empty := Parsed(false, [], None, false)

  /** The module-versioning marker a version may end with. */
  const Incompatible := "+incompatible"

  predicate IsSeparator(c: char) {
    c == '.' || c == '-'
  }

  /** `s` starts with the optional `v` prefix. */
  predicate HasV(s: string) {
    |s| > 0 && s[0] == 'v'
  }

  /** `s` with one leading `v` removed, if there is one. */
  function StripV(s: string): (r: string)
    ensures HasV(s) ==> "v" + r == s
    ensures !HasV(s) ==> r == s
  {
    if HasV(s) then s[1..] else s
  }

  /** `s` with one trailing `+incompatible` removed, if there is one. */
  function StripIncompatible(s: string): (r: string)
    ensures EndsWith(s, Incompatible) ==> r + Incompatible == s
    ensures !EndsWith(s, Incompatible) ==> r == s
  {
    if EndsWith(s, Incompatible) then s[..|s| - |Incompatible|] else s
  }

  /** The text that carries ordering information: no `v`, no marker. */
  function Core(s: string): string {
    StripIncompatible(StripV(s))
  }

  /** `t` starts with a run of digits that forms a whole `.`-field. */
  predicate NumericField(t: string) {
    var n := LeadingDigits(t);
    n > 0 && (n == |t| || IsSeparator(t[n]))
  }

  /** What may follow a complete release: nothing, or a separator that does
      not introduce one more numeric release field. */
  predicate TailOk(t: string) {
    t == [] || (IsSeparator(t[0]) && !(t[0] == '.' && NumericField(t[1..])))
  }

  /** Reads the dotted numeric release at the front of `c` greedily and
      returns it with the unread rest. The release is empty exactly when `c`
      does not start with a digit; nothing of `c` is lost. */
  function ScanRelease(c: string): (r: (seq<string>, string))
    ensures Join(r.0, '.') + r.1 == c
    ensures forall k :: 0 <= k < |r.0| ==> IsNumeric(r.0[k])
    ensures r.0 == [] <==> LeadingDigits(c) == 0
    ensures r.0 != [] && r.1 != [] ==> !IsDigit(r.1[0]) && !(r.1[0] == '.' && NumericField(r.1[1..]))
    decreases |c|
  {
    var n := LeadingDigits(c);
    if n == 0 then ([], c)
    else
      var head := c[..n];
      var rest := c[n..];
      assert IsNumeric(head);
      assert head + rest == c;
      if |rest| > 0 && rest[0] == '.' && NumericField(rest[1..]) then
        var more := ScanRelease(rest[1..]);
        ScanCons(head, more.0, more.1, rest);
        ([head] + more.0, more.1)
      else
        assert Join([head], '.') == head;
        ([head], rest)
  }

  /** One more release field in front of a scanned rest. */
  lemma {:induction false} ScanCons(head: string, segs: seq<string>, tail: string, rest: string)
    requires IsNumeric(head) && |segs| > 0
    requires forall k :: 0 <= k < |segs| ==> IsNumeric(segs[k])
    requires |rest| > 0 && rest[0] == '.'
    requires Join(segs, '.') + tail == rest[1..]
    ensures Join([head] + segs, '.') + tail == head + rest
    ensures forall k :: 0 <= k < |[head] + segs| ==> IsNumeric(([head] + segs)[k])
  {
    JoinCons(head, segs, '.');
    assert rest == ['.'] + rest[1..];
  }

  function PreText(pre: Option<Prerelease>): string {
    match pre
    case None => ""
    case Some(p) => [p.sep] + p.tag
  }

  /** The string a decomposition stands for. */
  function Render(p: Parsed): string {
    (if p.prefixed then "v" else "") + Join(p.release, '.') + PreText(p.pre)
      + (if p.incompatible then Incompatible else "")
  }

  /** The decompositions that `Parse` can produce: the empty one, or a
      non-empty numeric release with a non-empty, whitespace-free tag that
      the greedy release scan leaves alone. */
  predicate WellFormed(p: Parsed) {
    if p.release == [] then p == Empty
    else
      && (forall k :: 0 <= k < |p.release| ==> IsNumeric(p.release[k]))
      && match p.pre
         case None => true
         case Some(pr) =>
           && IsSeparator(pr.sep)
           && |pr.tag| > 0
           && NoSpace(pr.tag)
           && !(pr.sep == '.' && NumericField(pr.tag))
           && (!p.incompatible ==> !EndsWith(pr.tag, Incompatible))
  }

  /** Decomposes a version string; `None` for a string that is not a
      version. What it returns always renders back to the input. */
  function Parse(s: string): (r: Option<Parsed>)
    ensures r.Some? ==> WellFormed(r.value) && Render(r.value) == s
  {
    if s == [] then Some(Empty)
    else
      var scan := ScanRelease(Core(s));
      var release := scan.0;
      var rest := scan.1;
      if release == [] then None
      else if rest == [] then
        var p := Parsed(HasV(s), release, None, EndsWith(StripV(s), Incompatible));
        ParsedPlain(s);
        Some(p)
      else if IsSeparator(rest[0]) && |rest| > 1 && NoSpace(rest[1..]) then
        var p := Parsed(HasV(s), release, Some(Prerelease(rest[0], rest[1..])), EndsWith(StripV(s), Incompatible));
        ParsedWithPrerelease(s);
        Some(p)
      else None
  }

  /** The decomposition `Parse` builds for a string whose core is a bare
      release is well formed and renders back to the string. */
  lemma {:induction false} ParsedPlain(s: string)
    requires ScanRelease(Core(s)).0 != [] && ScanRelease(Core(s)).1 == []
    ensures var p := Parsed(HasV(s), ScanRelease(Core(s)).0, None, EndsWith(StripV(s), Incompatible));
            WellFormed(p) && Render(p) == s
  {
    var p := Parsed(HasV(s), ScanRelease(Core(s)).0, None, EndsWith(StripV(s), Incompatible));
    Reassemble(s);
    RenderCore(p, Core(s));
  }

  /** The decomposition `Parse` builds for a string whose core is a release
      and a prerelease tag is well formed and renders back to the string. */
  lemma {:induction false} ParsedWithPrerelease(s: string)
    requires var rest := ScanRelease(Core(s)).1;
             ScanRelease(Core(s)).0 != [] && rest != []
             && IsSeparator(rest[0]) && |rest| > 1 && NoSpace(rest[1..])
    ensures var rest := ScanRelease(Core(s)).1;
            var p := Parsed(HasV(s), ScanRelease(Core(s)).0, Some(Prerelease(rest[0], rest[1..])), EndsWith(StripV(s), Incompatible));
            WellFormed(p) && Render(p) == s
  {
    var scan := ScanRelease(Core(s));
    TagMarkerOnCore(s);
    PrereleaseWellFormed(scan.0, scan.1, EndsWith(StripV(s), Incompatible));
    PrereleaseRenders(s, scan.0, scan.1);
  }

  lemma {:induction false} PrereleaseWellFormed(release: seq<string>, rest: string, incompatible: bool)
    requires release != [] && (forall k :: 0 <= k < |release| ==> IsNumeric(release[k]))
    requires |rest| > 1 && IsSeparator(rest[0]) && NoSpace(rest[1..])
    requires !(rest[0] == '.' && NumericField(rest[1..]))
    requires EndsWith(rest[1..], Incompatible) ==> incompatible
    ensures WellFormed(Parsed(true, release, Some(Prerelease(rest[0], rest[1..])), incompatible))
    ensures WellFormed(Parsed(false, release, Some(Prerelease(rest[0], rest[1..])), incompatible))
  {
  }

  lemma {:induction false} PrereleaseRenders(s: string, release: seq<string>, rest: string)
    requires |rest| > 0
    requires Join(release, '.') + rest == Core(s)
    ensures Render(Parsed(HasV(s), release, Some(Prerelease(rest[0], rest[1..])), EndsWith(StripV(s), Incompatible))) == s
  {
    var p := Parsed(HasV(s), release, Some(Prerelease(rest[0], rest[1..])), EndsWith(StripV(s), Incompatible));
    ConsTail(rest);
    RenderCore(p, Core(s));
    Reassemble(s);
  }

  lemma {:induction false} ConsTail(r: string)
    requires |r| > 0
    ensures [r[0]] + r[1..] == r
  {
  }

  /** A tag ending in the marker would leave the marker on the core, which
      happens only when the string carries the marker twice. */
  lemma {:induction false} TagMarkerOnCore(s: string)
    requires var rest := ScanRelease(Core(s)).1; |rest| > 1
    ensures var rest := ScanRelease(Core(s)).1;
            EndsWith(rest[1..], Incompatible) ==> EndsWith(StripV(s), Incompatible)
  {
    var scan := ScanRelease(Core(s));
    if EndsWith(scan.1[1..], Incompatible) {
      MarkerSurvives(Join(scan.0, '.'), scan.1, StripV(s));
    }
  }

  lemma {:induction false} MarkerSurvives(j: string, rest: string, u: string)
    requires |rest| > 1
    requires j + rest == StripIncompatible(u)
    requires EndsWith(rest[1..], Incompatible)
    ensures EndsWith(u, Incompatible)
  {
    var n := |j + rest| - |Incompatible|;
    assert (j + rest)[n..] == rest[1..][|rest| - 1 - |Incompatible|..];
  }

  lemma {:induction false} RenderCore(p: Parsed, core: string)
    requires Join(p.release, '.') + PreText(p.pre) == core
    ensures Render(p) == (if p.prefixed then "v" else "") + core + (if p.incompatible then Incompatible else "")
  {
  }

  /** A string is its optional `v`, its core and its optional marker. */
  lemma {:induction false} Reassemble(s: string)
    ensures s == (if HasV(s) then "v" else "") + Core(s)
                 + (if EndsWith(StripV(s), Incompatible) then Incompatible else "")
  {
  }

  /** `Version.correct?`: the string is a version. */
  predicate IsValid(s: string) {
    Parse(s).Some?
  }

  /** `to_s`: the constructing text with one leading `v` removed. */
  function Display(v: Version): (d: string)
    ensures HasV(v.raw) ==> "v" + d == v.raw
    ensures !HasV(v.raw) ==> d == v.raw
  {
    StripV(v.raw)
  }

  /** `Parse` recognises every well-formed decomposition it could produce. */
  lemma {:induction false} RenderParse(p: Parsed)
    requires WellFormed(p)
    ensures Parse(Render(p)) == Some(p)
  {
    if p.release != [] {
      var s := Render(p);
      ScanRendered(p);
      match p.pre
      case None =>
      case Some(pr) =>
        var rest := PreText(p.pre);
        assert rest[0] == pr.sep && rest[1..] == pr.tag;
    }
  }

  /** How `Parse` reads a non-empty rendering: its `v`, its marker, and the
      release scan of its core. */
  lemma {:induction false} ScanRendered(p: Parsed)
    requires WellFormed(p) && p.release != []
    ensures Render(p) != []
    ensures HasV(Render(p)) == p.prefixed
    ensures EndsWith(StripV(Render(p)), Incompatible) == p.incompatible
    ensures ScanRelease(Core(Render(p))) == (p.release, PreText(p.pre))
  {
    var s := Render(p);
    var core := Join(p.release, '.') + PreText(p.pre);
    var body := core + (if p.incompatible then Incompatible else "");
    assert |body| > 0 && !HasV(body) by {
      JoinStartsWithDigit(p.release);
      DigitFirst(Join(p.release, '.'), PreText(p.pre), if p.incompatible then Incompatible else "");
    }
    assert s == (if p.prefixed then "v" else "") + body by {
      Regroup(if p.prefixed then "v" else "", Join(p.release, '.'), PreText(p.pre),
              if p.incompatible then Incompatible else "");
    }
    SplitPrefix(p.prefixed, body);
    assert Core(s) == core by {
      IncompatibleIff(p);
      if p.incompatible {
        StripMarkerAppended(core);
      }
    }
    assert TailOk(PreText(p.pre));
    ScanJoin(p.release, PreText(p.pre));
  }

  lemma {:induction false} DigitFirst(j: string, b: string, c: string)
    requires |j| > 0 && IsDigit(j[0])
    ensures |j + b + c| > 0 && !HasV(j + b + c)
  {
    assert (j + b + c)[0] == j[0];
  }

  lemma {:induction false} Regroup(a: string, b: string, c: string, d: string)
    ensures a + b + c + d == a + (b + c + d)
  {
  }

  lemma {:induction false} Regroup2(a: string, b: string, c: string, d: string)
    ensures a + b + c + d == a + (b + (c + d))
  {
  }

  lemma {:induction false} SplitPrefix(prefixed: bool, body: string)
    requires |body| > 0 && !HasV(body)
    ensures var s := (if prefixed then "v" else "") + body;
            HasV(s) == prefixed && StripV(s) == body
  {
    if prefixed {
      assert ("v" + body)[1..] == body;
    }
  }

  lemma {:induction false} StripMarkerAppended(u: string)
    ensures StripIncompatible(u + Incompatible) == u
  {
    EndsWithAppended(u, Incompatible);
    TakeAppended(u, Incompatible);
  }

  lemma {:induction false} EndsWithAppended(u: string, t: string)
    ensures EndsWith(u + t, t)
  {
    assert (u + t)[|u|..] == t;
  }

  lemma {:induction false} TakeAppended(u: string, t: string)
    ensures (u + t)[..|u|] == u
  {
  }

  /** The body of a well-formed decomposition ends with the marker exactly
      when the decomposition carries it. */
  lemma {:induction false} IncompatibleIff(p: Parsed)
    requires WellFormed(p) && p.release != []
    ensures EndsWith(Join(p.release, '.') + PreText(p.pre) + (if p.incompatible then Incompatible else ""), Incompatible)
            == p.incompatible
  {
    var core := Join(p.release, '.') + PreText(p.pre);
    if p.incompatible {
      EndsWithAppended(core, Incompatible);
    } else {
      AppendEmpty(core);
      match p.pre
      case None =>
        JoinEndsWithDigit(p.release);
        AppendEmpty(Join(p.release, '.'));
        NoMarkerAfterDigit(core);
      case Some(pr) =>
        assert core == Join(p.release, '.') + [pr.sep] + pr.tag;
        NotEndsWith(Join(p.release, '.'), pr.sep, pr.tag);
    }
  }

  lemma {:induction false} AppendEmpty(u: string)
    ensures u + "" == u
  {
  }

  /** The marker ends in a letter, so a string ending in a digit does not
      end with it. */
  lemma {:induction false} NoMarkerAfterDigit(s: string)
    requires |s| > 0 && IsDigit(s[|s| - 1])
    ensures !EndsWith(s, Incompatible)
  {
    assert Incompatible[|Incompatible| - 1] == 'e';
    if |Incompatible| <= |s| {
      assert s[|s| - |Incompatible|..][|Incompatible| - 1] == s[|s| - 1];
    }
  }

  lemma {:induction false} NotEndsWith(a: string, c: char, tag: string)
    requires IsSeparator(c)
    requires !EndsWith(tag, Incompatible)
    ensures !EndsWith(a + [c] + tag, Incompatible)
  {
    var s := a + [c] + tag;
    if |tag| >= |Incompatible| {
      assert s[|s| - |Incompatible|..] == tag[|tag| - |Incompatible|..];
    } else if |Incompatible| <= |s| {
      assert s[|s| - |tag| - 1] == c;
      assert s[|s| - |Incompatible|..][|Incompatible| - |tag| - 1] == c;
    }
  }

  lemma {:induction false} JoinStartsWithDigit(segs: seq<string>)
    requires |segs| > 0
    requires forall k :: 0 <= k < |segs| ==> IsNumeric(segs[k])
    ensures |Join(segs, '.')| > 0 && IsDigit(Join(segs, '.')[0])
  {
    assert IsNumeric(segs[0]);
    if |segs| > 1 {
      assert Join(segs, '.')[0] == segs[0][0];
    }
  }

  lemma {:induction false} JoinEndsWithDigit(segs: seq<string>)
    requires |segs| > 0
    requires forall k :: 0 <= k < |segs| ==> IsNumeric(segs[k])
    ensures |Join(segs, '.')| > 0 && IsDigit(Join(segs, '.')[|Join(segs, '.')| - 1])
  {
    assert IsNumeric(segs[0]);
    if |segs| > 1 {
      JoinEndsWithDigit(segs[1..]);
      var tail := Join(segs[1..], '.');
      assert Join(segs, '.') == segs[0] + ['.'] + tail;
      assert Join(segs, '.')[|Join(segs, '.')| - 1] == tail[|tail| - 1];
    }
  }

  lemma {:induction false} LeadingDigitsConcat(d: string, u: string)
    requires AllDigits(d)
    requires u == [] || !IsDigit(u[0])
    ensures LeadingDigits(d + u) == |d|
  {
    if d != [] {
      assert (d + u)[1..] == d[1..] + u;
      LeadingDigitsConcat(d[1..], u);
    }
  }

  /** The greedy release scan reads back exactly the release that was
      joined, provided what follows it could not extend the release. */
  lemma {:induction false} ScanJoin(segs: seq<string>, t: string)
    requires |segs| > 0
    requires forall k :: 0 <= k < |segs| ==> IsNumeric(segs[k])
    requires TailOk(t)
    ensures ScanRelease(Join(segs, '.') + t) == (segs, t)
    decreases |segs|
  {
    var d := segs[0];
    if |segs| == 1 {
      assert Join(segs, '.') + t == d + t;
      ScanStop(d, t);
      assert segs == [d];
    } else {
      var more := Join(segs[1..], '.') + t;
      assert Join(segs, '.') + t == d + ("." + more) by {
        assert segs == [d] + segs[1..];
        JoinCons(d, segs[1..], '.');
        Regroup2(d, ".", Join(segs[1..], '.'), t);
      }
      assert ("." + more)[1..] == more;
      NumericFieldOfJoin(segs[1..], t);
      ScanStep(d, "." + more);
      ScanJoin(segs[1..], t);
      assert segs == [d] + segs[1..];
    }
  }

  /** A numeric field followed by a tail that cannot extend the release is
      read as a one-field release. */
  lemma {:induction false} ScanStop(d: string, t: string)
    requires IsNumeric(d)
    requires TailOk(t)
    ensures ScanRelease(d + t) == ([d], t)
  {
    LeadingDigitsConcat(d, t);
    assert (d + t)[..|d|] == d && (d + t)[|d|..] == t;
  }

  /** A numeric field followed by `.` and one more numeric field is read
      together with the release scanned after the dot. */
  lemma {:induction false} ScanStep(d: string, u: string)
    requires IsNumeric(d)
    requires |u| > 0 && u[0] == '.' && NumericField(u[1..])
    ensures ScanRelease(d + u) == ([d] + ScanRelease(u[1..]).0, ScanRelease(u[1..]).1)
  {
    LeadingDigitsConcat(d, u);
    assert (d + u)[..|d|] == d && (d + u)[|d|..] == u;
  }

  lemma {:induction false} NumericFieldOfJoin(segs: seq<string>, t: string)
    requires |segs| > 0
    requires forall k :: 0 <= k < |segs| ==> IsNumeric(segs[k])
    requires TailOk(t)
    ensures NumericField(Join(segs, '.') + t)
  {
    var d := segs[0];
    assert IsNumeric(d);
    if |segs| == 1 {
      assert Join(segs, '.') + t == d + t;
      NumericFieldConcat(d, t);
    } else {
      var u := ['.'] + (Join(segs[1..], '.') + t);
      assert segs == [d] + segs[1..];
      JoinCons(d, segs[1..], '.');
      assert Join(segs, '.') + t == d + u;
      assert u[0] == '.';
      NumericFieldConcat(d, u);
    }
  }

  /** A digit run followed by nothing or a separator is a numeric field. */
  lemma {:induction false} NumericFieldConcat(d: string, u: string)
    requires IsNumeric(d)
    requires u == [] || IsSeparator(u[0])
    ensures NumericField(d + u)
  {
    LeadingDigitsConcat(d, u);
    if u != [] {
      assert (d + u)[|d|] == u[0];
    }
  }

  /** The valid strings are exactly the renderings of well-formed
      decompositions. */
  lemma {:induction false} ValidIffRendered(s: string)
    ensures IsValid(s) <==> exists p :: WellFormed(p) && Render(p) == s
  {
    if exists p :: WellFormed(p) && Render(p) == s {
      var p :| WellFormed(p) && Render(p) == s;
      RenderParse(p);
    }
  }

  /** Decomposition is unique: two well-formed decompositions that render
      the same string are the same. */
  lemma {:induction false} RenderInjective(p: Parsed, q: Parsed)
    requires WellFormed(p) && WellFormed(q)
    requires Render(p) == Render(q)
    ensures p == q
  {
    RenderParse(p);
    RenderParse(q);
  }

  /** The display form of a valid version is the same version without its
      `v`: still valid, and displayed as itself. */
  lemma {:induction false} DisplayOfValid(s: string)
    requires IsValid(s)
    ensures Parse(Display(Version(s))) == Some(Parse(s).value.(prefixed := false))
    ensures Display(Version(Display(Version(s)))) == Display(Version(s))
  {
    var p := Parse(s).value;
    RenderedDisplay(p);
    RenderParse(p.(prefixed := false));
  }

  /** A valid version's display form never starts with `v`. */
  lemma {:induction false} DisplayNotPrefixed(s: string)
    requires IsValid(s)
    ensures !HasV(Display(Version(s)))
  {
    RenderedDisplay(Parse(s).value);
  }

  /** Dropping the `v` of a rendering renders the decomposition without
      its prefix, and that never starts with `v`. */
  lemma {:induction false} RenderedDisplay(p: Parsed)
    requires WellFormed(p)
    ensures WellFormed(p.(prefixed := false))
    ensures StripV(Render(p)) == Render(p.(prefixed := false))
    ensures !HasV(Render(p.(prefixed := false)))
  {
    var q := p.(prefixed := false);
    var body := Join(p.release, '.') + PreText(p.pre) + (if p.incompatible then Incompatible else "");
    assert Render(q) == body;
    assert Render(p) == (if p.prefixed then "v" else "") + body;
    if p.release != [] {
      JoinStartsWithDigit(p.release);
      assert body[0] == Join(p.release, '.')[0];
    }
  }
}
