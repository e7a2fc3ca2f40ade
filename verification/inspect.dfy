/**
 The debug rendering (`inspect`) of a `dep` version: the class name and the
 display string quoted the way Ruby's `String#inspect` quotes it. The label
 is built from the display string itself, so a `-` prerelease separator
 shows as written.
 */
module DebugLabel {
  import opened Wrappers
  import opened DepVersion

  const ClassName := "Dependabot::Dep::Version"

  /** The text before and after the quoted display string. */
  const Opening := "#<" + ClassName + " \""
  const Closing := "\">"

  /** Characters that would start an interpolation after a `#`. */
  predicate Interpolates(c: char) {
    c == '{' || c == '$' || c == '@'
  }

  /** The body of a double-quoted Ruby literal for `s`: `"` and `\` get a
      backslash, and so does a `#` that would start an interpolation. */
  function Escape(s: string): string {
    if s == [] then []
    else if s[0] == '"' || s[0] == '\\' then ['\\', s[0]] + Escape(s[1..])
    else if s[0] == '#' && |s| > 1 && Interpolates(s[1]) then ['\\', '#'] + Escape(s[1..])
    else [s[0]] + Escape(s[1..])
  }

  /** Reads a literal body back: a backslash takes the next character
      verbatim; a bare `"` or a trailing backslash is malformed. */
  function Unescape(q: string): Option<string> {
    if q == [] then Some([])
    else if q[0] == '\\' then
      if |q| < 2 then None
      else
        match Unescape(q[2..])
        case None => None
        case Some(r) => Some([q[1]] + r)
    else if q[0] == '"' then None
    else
      match Unescape(q[1..])
      case None => None
      case Some(r) => Some([q[0]] + r)
  }

  /** `#inspect`. */
  function Inspect(v: Version): string {
    Opening + Escape(Display(v)) + Closing
  }

  /** Recovers the display string from a debug label. */
  function ReadInspect(rendered: string): Option<string> {
    if |rendered| >= |Opening| + |Closing|
       && rendered[..|Opening|] == Opening
       && rendered[|rendered| - |Closing|..] == Closing
    then Unescape(rendered[|Opening|..|rendered| - |Closing|])
    else None
  }

  /** No character of `s` needs a backslash. */
  predicate Plain(s: string) {
    forall i :: 0 <= i < |s| ==> s[i] != '"' && s[i] != '\\' && s[i] != '#'
  }

  lemma {:induction false} UnescapeEscape(s: string)
    ensures Unescape(Escape(s)) == Some(s)
  {
    if s != [] {
      UnescapeEscape(s[1..]);
      var e := Escape(s);
      if s[0] == '"' || s[0] == '\\' || (s[0] == '#' && |s| > 1 && Interpolates(s[1])) {
        assert e == ['\\', s[0]] + Escape(s[1..]);
        assert e[2..] == Escape(s[1..]);
      } else {
        assert e == [s[0]] + Escape(s[1..]);
        assert e[1..] == Escape(s[1..]);
      }
      assert s == [s[0]] + s[1..];
    }
  }

  /** A plain string is its own literal body. */
  lemma {:induction false} EscapePlain(s: string)
    requires Plain(s)
    ensures Escape(s) == s
  {
    if s != [] {
      assert Plain(s[1..]);
      EscapePlain(s[1..]);
      assert s == [s[0]] + s[1..];
    }
  }

  /** The label carries the display string exactly: it can be read back. */
  lemma {:induction false} ReadInspectInspect(v: Version)
    ensures ReadInspect(Inspect(v)) == Some(Display(v))
  {
    var e := Escape(Display(v));
    var rendered := Inspect(v);
    assert rendered[..|Opening|] == Opening;
    assert rendered[|rendered| - |Closing|..] == Closing;
    assert rendered[|Opening|..|rendered| - |Closing|] == e;
    UnescapeEscape(Display(v));
  }

  /** Versions with different display strings have different labels. */
  lemma {:induction false} InspectInjective(v: Version, w: Version)
    requires Inspect(v) == Inspect(w)
    ensures Display(v) == Display(w)
  {
    ReadInspectInspect(v);
    ReadInspectInspect(w);
  }

  /** For a display string with nothing to escape, the label is the class
      name and the display string between double quotes, verbatim. */
  lemma {:induction false} InspectPlain(v: Version)
    requires Plain(Display(v))
    ensures Inspect(v) == "#<Dependabot::Dep::Version \"" + Display(v) + "\">"
  {
    var d := Display(v);
    assert Escape(d) == d by {
      EscapePlain(d);
    }
    OpeningText();
  }

  lemma OpeningText()
    ensures Opening == "#<Dependabot::Dep::Version \""
  {
  }
}
