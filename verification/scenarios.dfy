/**
 The concrete scenarios of the version test suite, checked against the
 model: validity, display, the debug label, and `>= 1.0.0`.
 */
module SpecScenarios {
  import opened Text
  import opened Wrappers
  import opened Ordering
  import opened DepVersion
  import opened VersionOrder
  import opened DebugLabel

  /** The decomposition of a three-segment release `a.b.c`, optionally
      with a `v`, a prerelease and the marker. */
  function Release3(prefixed: bool, a: string, b: string, c: string, pre: Option<Prerelease>, incompatible: bool): Parsed {
    Parsed(prefixed, [a, b, c], pre, incompatible)
  }

  lemma {:induction false} RenderRelease3(prefixed: bool, a: string, b: string, c: string, pre: Option<Prerelease>, incompatible: bool)
    ensures Render(Release3(prefixed, a, b, c, pre, incompatible))
            == (if prefixed then "v" else "") + (a + "." + b + "." + c) + PreText(pre)
               + (if incompatible then "+incompatible" else "")
  {
    Join3(a, b, c);
  }

  lemma {:induction false} Join3(a: string, b: string, c: string)
    ensures Join([a, b, c], '.') == a + "." + b + "." + c
  {
    assert Join([c], '.') == c;
    JoinCons(b, [c], '.');
    assert [b] + [c] == [b, c];
    JoinCons(a, [b, c], '.');
    assert [a] + [b, c] == [a, b, c];
  }

  /** `.correct?` accepts `v1.0.0`. */
  lemma CorrectWithV()
    ensures IsValid("v1.0.0")
  {
    var p := Release3(true, "1", "0", "0", None, false);
    assert Render(p) == "v1.0.0" by {
      RenderRelease3(true, "1", "0", "0", None, false);
    }
    assert Parse(Render(p)).Some? by {
      RenderParse(p);
    }
  }

  /** `.correct?` accepts `1.0.0`. */
  lemma CorrectWithoutV()
    ensures IsValid("1.0.0")
  {
    var p := Release3(false, "1", "0", "0", None, false);
    assert Render(p) == "1.0.0" by {
      RenderRelease3(false, "1", "0", "0", None, false);
    }
    assert Parse(Render(p)).Some? by {
      RenderParse(p);
    }
  }

  /** `.correct?` accepts `v1.0.0+incompatible`. */
  lemma CorrectIncompatible()
    ensures IsValid("v1.0.0+incompatible")
  {
    var p := Release3(true, "1", "0", "0", None, true);
    assert Render(p) == "v1.0.0+incompatible" by {
      RenderRelease3(true, "1", "0", "0", None, true);
    }
    assert Parse(Render(p)).Some? by {
      RenderParse(p);
    }
  }

  /** `.correct?` rejects `va1.0.0` and accepts the empty string. */
  lemma IncorrectScenario()
    ensures !IsValid("va1.0.0")
    ensures IsValid("")
  {
    assert Core("va1.0.0") == "a1.0.0";
  }

  /** `#to_s` keeps the text, including a `-` separator, and drops a `v`. */
  lemma DisplayScenarios()
    ensures Display(Version("1.0.0")) == "1.0.0"
    ensures Display(Version("1.0.0.pre1")) == "1.0.0.pre1"
    ensures Display(Version("1.0.0-pre1")) == "1.0.0-pre1"
    ensures Display(Version("v1.0.0")) == "1.0.0"
    ensures Display(Version("")) == ""
  {
  }

  /** `#inspect` of `1.0.0-pre1` shows the display string unmangled. */
  lemma InspectScenario()
    ensures Inspect(Version("1.0.0-pre1")) == "#<Dependabot::Dep::Version \"" + "1.0.0-pre1" + "\">"
  {
    var v := Version("1.0.0-pre1");
    assert Display(v) == "1.0.0-pre1" by {
      assert !HasV(v.raw);
    }
    assert Plain("1.0.0-pre1");
    InspectPlain(v);
  }

  /** The ordering key of a string `a.b.c` followed by a tail that does
      not extend the release, with no `v` and no marker. */
  lemma {:induction false} KeyOfRelease3(s: string, a: string, b: string, c: string, t: string)
    requires IsNumeric(a) && IsNumeric(b) && IsNumeric(c)
    requires TailOk(t)
    requires !HasV(s) && !EndsWith(s, Incompatible)
    requires s == a + "." + b + "." + c + t
    ensures KeyOf(s) == Key([Value(a), Value(b), Value(c)], TagOf(t))
  {
    assert Core(s) == s;
    assert Join([a, b, c], '.') + t == s by {
      Join3(a, b, c);
    }
    ScanJoin([a, b, c], t);
    assert Values([a, b, c]) == [Value(a), Value(b), Value(c)];
  }

  /** The values of the digit strings and the tags the scenarios use. */
  lemma ScenarioValues()
    ensures Value("0") == 0 && Value("1") == 1 && Value("9") == 9
    ensures TagOf("") == None && TagOf("-pre") == Some("pre")
  {
  }

  /** `1.0.0`, `0.9.0`, `1.1.0` and `1.1.0-pre` split as `a.b.c` plus a tail. */
  lemma Shape100()
    ensures "1.0.0" == "1" + "." + "0" + "." + "0" + ""
    ensures !HasV("1.0.0") && !EndsWith("1.0.0", Incompatible) && TailOk("")
  {
  }

  lemma Shape090()
    ensures "0.9.0" == "0" + "." + "9" + "." + "0" + ""
    ensures !HasV("0.9.0") && !EndsWith("0.9.0", Incompatible) && TailOk("")
  {
  }

  lemma Shape110()
    ensures "1.1.0" == "1" + "." + "1" + "." + "0" + ""
    ensures !HasV("1.1.0") && !EndsWith("1.1.0", Incompatible) && TailOk("")
  {
  }

  lemma Shape110Pre()
    ensures "1.1.0-pre" == "1" + "." + "1" + "." + "0" + "-pre"
    ensures !HasV("1.1.0-pre") && !EndsWith("1.1.0-pre", Incompatible) && TailOk("-pre")
  {
  }

  lemma Key100()
    ensures KeyOf("1.0.0") == Key([1, 0, 0], None)
  {
    Shape100();
    KeyOfRelease3("1.0.0", "1", "0", "0", "");
    ScenarioValues();
  }

  lemma Key090()
    ensures KeyOf("0.9.0") == Key([0, 9, 0], None)
  {
    Shape090();
    KeyOfRelease3("0.9.0", "0", "9", "0", "");
    ScenarioValues();
  }

  lemma Key110()
    ensures KeyOf("1.1.0") == Key([1, 1, 0], None)
  {
    Shape110();
    KeyOfRelease3("1.1.0", "1", "1", "0", "");
    ScenarioValues();
  }

  lemma Key110Pre()
    ensures KeyOf("1.1.0-pre") == Key([1, 1, 0], Some("pre"))
  {
    Shape110Pre();
    KeyOfRelease3("1.1.0-pre", "1", "1", "0", "-pre");
    ScenarioValues();
  }

  /** `1.0.0` satisfies `>= 1.0.0`. */
  lemma GeEqual()
    ensures SatisfiesGe(Version("1.0.0"), Version("1.0.0"))
  {
    CompareReflexive(Version("1.0.0"));
  }

  /** `1.0.0+incompatible` satisfies `>= 1.0.0`: the marker is ignored. */
  lemma GeIncompatible()
    ensures SatisfiesGe(Version("1.0.0+incompatible"), Version("1.0.0"))
  {
    assert "1.0.0" + Incompatible == "1.0.0+incompatible";
    CompareIgnoresIncompatible("1.0.0", Version("1.0.0"));
    CompareReflexive(Version("1.0.0"));
  }

  /** `0.9.0` does not satisfy `>= 1.0.0`. */
  lemma GeLower()
    ensures !SatisfiesGe(Version("0.9.0"), Version("1.0.0"))
  {
    Key090();
    Key100();
  }

  /** `1.1.0-pre` satisfies `>= 1.0.0`: the greater release decides. */
  lemma GePrerelease()
    ensures SatisfiesGe(Version("1.1.0-pre"), Version("1.0.0"))
  {
    Key110Pre();
    Key100();
  }

  lemma Compare110()
    ensures Compare(Version("1.1.0"), Version("1.0.0")) == Greater
  {
    Key110();
    Key100();
  }

  lemma Compare090()
    ensures Compare(Version("0.9.0"), Version("1.0.0")) == Less
  {
    Key090();
    Key100();
  }

  /** `v1.1.0` satisfies `>= 1.0.0`: the `v` is ignored. */
  lemma GePrefixedHigher()
    ensures SatisfiesGe(Version("v1.1.0"), Version("1.0.0"))
  {
    var s := "1.1.0";
    assert "v" + s == "v1.1.0";
    CompareIgnoresV(s, Version("1.0.0"));
    Compare110();
  }

  /** `v0.9.0` does not satisfy `>= 1.0.0`. */
  lemma GePrefixedLower()
    ensures !SatisfiesGe(Version("v0.9.0"), Version("1.0.0"))
  {
    var s := "0.9.0";
    assert "v" + s == "v0.9.0";
    CompareIgnoresV(s, Version("1.0.0"));
    Compare090();
  }
}
