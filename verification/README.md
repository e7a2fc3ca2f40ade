# The `dep` version value type, modelled in Dafny

`Dependabot::Dep::Version` is the version type Dependabot uses for Go
projects managed by `dep`. A version is built from any string. It offers:

- a validity predicate, `Version.correct?`;
- a display form, `#to_s`;
- a debug label, `#inspect`;
- an ordering, which a RubyGems requirement such as `>= 1.0.0` uses through `satisfied_by?`.

Version strings follow semantic-version-like conventions with three extras:

- an optional leading `v`;
- an optional trailing `+incompatible` marker, used for module versioning;
- a prerelease that may be introduced by `-` (PHP style) as well as by `.`. It must be shown exactly as written.

The implementation file `dependabot/dep/version.rb` is not part of this model. The model follows the cases of the class's test file, `dep/spec/dependabot/dep/version_spec.rb`. Where the tests leave a question open, the model makes a choice, and "## Left out" names each one.

## Layout

| file | module | contents |
|---|---|---|
| `text.dfy` | `Text` | digits and decimal values, Ruby's `\s` class, suffix tests, `Join`/`Split` on a separator, and how `Split` treats a concatenation |
| `ordering.dfy` | `Ordering` | three-way results, the laws of a total preorder, and lexicographic comparison with its laws |
| `wrappers.dfy` | `Wrappers` | `Option` |
| `version.dfy` | `DepVersion` | the version value, the grammar as a decomposition `Parsed` with `Render`, `Parse`, `IsValid` (`.correct?`) and `Display` (`#to_s`) |
| `order.dfy` | `VersionOrder` | ordering keys, `Compare` (`<=>`) and `SatisfiesGe` (`>=`) |
| `inspect.dfy` | `DebugLabel` | `Inspect` (`#inspect`) and reading a label back |
| `scenarios.dfy` | `SpecScenarios` | every concrete case of the test file, proved against the model |

### Grammar

A valid version is either the empty string or matches this shape, where `tag` is non-empty and contains no whitespace:

    [v] digits ('.' digits)* [ ('.' | '-') tag ] ['+incompatible']

`Parse` splits a string into:

- whether it starts with `v`;
- the release fields as written;
- the prerelease separator and tag;
- whether it ends with the marker.

This is compared throughout with the informal reading of a valid version, a regular expression:

    ^v?\d+(\.\d+){0,2}([.-]\S+)?(\+incompatible)?$

The two agree on every case of the test file. "## Left out" lists the strings they read differently.

`Parse` returns `None` when the string is not a version. `Render` puts a decomposition back together. The two are exact inverses on well-formed decompositions. So validity is the statement "the string is the rendering of some well-formed decomposition", and that decomposition is unique.

### Ordering

`Compare` first drops the `v` and the marker. It then reduces a string to a key made of two parts:

- the numeric values of the release fields;
- the prerelease tag, if any.

Releases compare numerically, most significant field first, and a missing field counts as 0. When releases are equal:

- a version with no tag is above one with a tag;
- two tags compare identifier by identifier, as in section 11 of Semantic Versioning 2.0.0. Numeric identifiers compare by value and sort below alphanumeric ones. Alphanumeric identifiers compare by code point. A proper prefix sorts lower.

An invalid string still gets a key, built the same way. What the release scan leaves unread is read as a tag: a leading `.` or `-` is dropped, and the rest is split on `.` and compared identifier by identifier like any other tag. This makes `Compare` total, and it is proved to be a total preorder on all strings. `SatisfiesGe(v, bound)` holds when `v` does not compare below `bound`.

## Model

| member | source | states |
|---|---|---|
| DepVersion.Parse | dep/spec/dependabot/dep/version_spec.rb:10-37 | a string is accepted only through a decomposition that is well formed and renders back to exactly that string |
| DepVersion.RenderParse | dep/spec/dependabot/dep/version_spec.rb:10-37 | every well-formed decomposition is recognised: parsing its rendering gives that decomposition back |
| DepVersion.ValidIffRendered | dep/spec/dependabot/dep/version_spec.rb:10-37 | `.correct?` holds exactly for the renderings of well-formed decompositions (both directions) |
| DepVersion.RenderInjective | dep/spec/dependabot/dep/version_spec.rb:10-37 | a valid string has only one decomposition |
| DepVersion.ScanRelease | dep/spec/dependabot/dep/version_spec.rb:13-26 | the release scan loses nothing: its fields rejoined with `.` plus the rest give the input; every field is numeric; it finds no release exactly when the input does not start with a digit; what it stops at cannot extend the release |
| DepVersion.ScanJoin | dep/spec/dependabot/dep/version_spec.rb:13-26 | scanning a joined release followed by a tail that cannot extend it yields that release and that tail |
| SpecScenarios.CorrectWithV | dep/spec/dependabot/dep/version_spec.rb:13-16 | `v1.0.0` is valid |
| SpecScenarios.CorrectWithoutV | dep/spec/dependabot/dep/version_spec.rb:18-21 | `1.0.0` is valid |
| SpecScenarios.CorrectIncompatible | dep/spec/dependabot/dep/version_spec.rb:23-26 | `v1.0.0+incompatible` is valid |
| SpecScenarios.IncorrectScenario | dep/spec/dependabot/dep/version_spec.rb:28-36 | `va1.0.0` is not valid, and the empty string is valid |
| DepVersion.Display | dep/spec/dependabot/dep/version_spec.rb:39-66 | `to_s` returns the input unchanged when it has no leading `v`; otherwise `v` followed by the result gives the input back, so exactly one `v` is removed |
| DepVersion.DisplayOfValid | dep/spec/dependabot/dep/version_spec.rb:39-66 | the display form of a valid version is valid and has the same decomposition without the `v`; displaying it again changes nothing |
| DepVersion.DisplayNotPrefixed | dep/spec/dependabot/dep/version_spec.rb:57-60 | the display form of a valid version never starts with `v` |
| SpecScenarios.DisplayScenarios | dep/spec/dependabot/dep/version_spec.rb:39-66 | `1.0.0`, `1.0.0.pre1` and `1.0.0-pre1` display as themselves (the `-` is kept), `v1.0.0` displays as `1.0.0`, and the empty string as the empty string |
| DebugLabel.UnescapeEscape | dep/spec/dependabot/dep/version_spec.rb:68-77 | quoting the display string inside the label can be undone: reading the quoted body back gives the display string |
| DebugLabel.ReadInspectInspect | dep/spec/dependabot/dep/version_spec.rb:68-77 | the label carries the display string unmangled: it can be read back from the label |
| DebugLabel.InspectInjective | dep/spec/dependabot/dep/version_spec.rb:68-77 | versions with different display strings have different labels |
| DebugLabel.EscapePlain | dep/spec/dependabot/dep/version_spec.rb:71-75 | a string with no `"`, `\` or `#` is quoted verbatim |
| DebugLabel.InspectPlain | dep/spec/dependabot/dep/version_spec.rb:71-75 | for such a display string the label is the class name plus the display string between double quotes |
| SpecScenarios.InspectScenario | dep/spec/dependabot/dep/version_spec.rb:71-75 | the label of `1.0.0-pre1` is `#<Dependabot::Dep::Version "1.0.0-pre1">` |
| VersionOrder.CompareReflexive | dep/spec/dependabot/dep/version_spec.rb:83-86 | every version, valid or not, compares equal to itself |
| VersionOrder.CompareAntisymmetric | dep/spec/dependabot/dep/version_spec.rb:79-114 | swapping the operands flips the result |
| VersionOrder.CompareTransitive | dep/spec/dependabot/dep/version_spec.rb:79-114 | "not above" is transitive |
| VersionOrder.SatisfiesGeUpward | dep/spec/dependabot/dep/version_spec.rb:79-81 | whatever is at or above a version that satisfies `>= bound` also satisfies it |
| VersionOrder.CompareReleaseIsPaddedLex | dep/spec/dependabot/dep/version_spec.rb:93-96 | release comparison equals lexicographic numeric comparison after zero-padding both releases to any common length |
| VersionOrder.TrailingZeroIgnored | dep/spec/dependabot/dep/version_spec.rb:79-81 | a trailing zero field does not change a release's place (`1.0` is level with `1.0.0`) |
| VersionOrder.CompareIgnoresV | dep/spec/dependabot/dep/version_spec.rb:103-113 | a leading `v` does not change how a version compares with anything |
| VersionOrder.CompareIgnoresIncompatible | dep/spec/dependabot/dep/version_spec.rb:88-91 | a trailing `+incompatible` does not change how a version compares with anything |
| VersionOrder.KeyOfParsed | dep/spec/dependabot/dep/version_spec.rb:79-114 | on a valid version, the ordering key holds the values of the decomposition's release fields and its tag |
| VersionOrder.ReleaseDominates | dep/spec/dependabot/dep/version_spec.rb:98-101 | between valid versions, a greater release wins whatever tags either side has |
| VersionOrder.PrereleaseBelowRelease | dep/spec/dependabot/dep/version_spec.rb:98-101 | a tagged version sorts below an untagged one with an equal release (a modelling choice, see below) |
| VersionOrder.TagExtensionAbove | dep/spec/dependabot/dep/version_spec.rb:98-101 | a tag sorts below the same tag extended by more `.`-identifiers (`pre` below `pre.1`) (a modelling choice, see below) |
| VersionOrder.EmptyPlacement | dep/spec/dependabot/dep/version_spec.rb:33-36 | the empty version compares at or below every valid version without a tag |
| VersionOrder.EmptyLevelWithZero | dep/spec/dependabot/dep/version_spec.rb:33-36 | the empty version compares equal to `0` |
| VersionOrder.EmptyAbovePrerelease | dep/spec/dependabot/dep/version_spec.rb:33-36 | the empty version is not the least: `0-a` sorts below it |
| VersionOrder.DisplayKeepsOrder | dep/spec/dependabot/dep/version_spec.rb:57-60 | a valid version and its display form compare equal |
| SpecScenarios.GeEqual | dep/spec/dependabot/dep/version_spec.rb:83-86 | `1.0.0` satisfies `>= 1.0.0` |
| SpecScenarios.GeIncompatible | dep/spec/dependabot/dep/version_spec.rb:88-91 | `1.0.0+incompatible` satisfies `>= 1.0.0` |
| SpecScenarios.GeLower | dep/spec/dependabot/dep/version_spec.rb:93-96 | `0.9.0` does not satisfy `>= 1.0.0` |
| SpecScenarios.GePrerelease | dep/spec/dependabot/dep/version_spec.rb:98-101 | `1.1.0-pre` satisfies `>= 1.0.0` |
| SpecScenarios.GePrefixedHigher | dep/spec/dependabot/dep/version_spec.rb:104-107 | `v1.1.0` satisfies `>= 1.0.0` |
| SpecScenarios.GePrefixedLower | dep/spec/dependabot/dep/version_spec.rb:109-112 | `v0.9.0` does not satisfy `>= 1.0.0` |

## Left out

- The class's implementation file is not part of this model. Every behaviour above follows the cases of the test file. Where the tests are silent, the choices are listed below.
- Construction never fails here: `Version` wraps any string, and validity is the separate predicate. Whether the Ruby constructor raises for a malformed string is not modelled.
- The RSpec setup and `spec_helper` are test plumbing and are not modelled.
- `Gem::Requirement` is not modelled. Neither its parsing nor its other operators (`=`, `!=`, `>`, `<`, `<=`, `~>`) are covered; only a single `>=` clause over `Compare` is modelled.
- `Gem::Version` internals are not modelled. This includes its `-` to `.pre.` rewriting and its segment canonicalisation. The model keeps the display text unmangled and builds its own ordering.
- VersionOrder.Compare: the ordering of strings that are not valid versions is a fallback, chosen only so that comparison is total. The source leaves it unspecified, and nothing is claimed about it beyond the preorder laws.
- VersionOrder.Compare: the empty string is valid but is not the least version. Its key has no release fields and no tag. Missing fields count as 0, so `""` is level with `0` (`EmptyLevelWithZero`). A prerelease sorts below its release, so `0-a` sorts below `""` (`EmptyAbovePrerelease`). The model does not promise that `""` is minimal.
- VersionOrder.PrereleaseBelowRelease: the tests do not decide how a prerelease compares with its own release. The rule used here follows section 11 of Semantic Versioning 2.0.0 and is a modelling choice, not a promise of the source. The same holds for how two tags compare.
- DepVersion.Parse: the release is read greedily. A `.`-field made only of digits that ends at the end of the string, a `.` or a `-` always joins the release. The regular expression under "Grammar" reads a few strings differently:
  - `1.0.5.` and `1.0.5-` are valid there, with tag `5.` or `5-`; here they are invalid, because after the greedy release only an empty tag is left.
  - The `+incompatible` marker is removed before the release is read, so the marker alone is never a tag. `1-+incompatible`, `1.0.0-+incompatible` and `1.0.0.+incompatible` are valid under the regular expression, with tag `+incompatible`. Here they are invalid, because after the marker is removed only an empty tag is left.
  - The greedy reading gives every valid string exactly one decomposition (`RenderInjective`), which the regular expression does not.
- DepVersion.Parse: there is no cap of three release fields. `1.2.3.4` is valid under both readings, but here its fourth field is a release field, as `Gem::Version` treats it, rather than a tag.
- DebugLabel.Inspect: Ruby's `String#inspect` also escapes control and non-printable characters and depends on the string's encoding. The model escapes only `"`, `\` and a `#` that would start an interpolation (`#{`, `#$`, `#@`). The round trip and the test case need no more than that.
- Leading or trailing whitespace is not stripped. Characters are compared as Unicode code points, with no normalisation.
