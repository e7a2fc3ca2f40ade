/**
 Three-way comparison results, the laws of a total preorder stated for a
 comparison function, and lexicographic comparison of sequences built from
 an element comparison.
 */
module Ordering {

  datatype Cmp = Less | Equal | Greater

  function Flip(c: Cmp): Cmp {
    match c
    case Less => Greater
    case Equal => Equal
    case Greater => Less
  }

  /** Every value compares equal to itself. */
  ghost predicate Reflexive<T(!new)>(cmp: (T, T) -> Cmp) {
    forall x :: cmp(x, x) == Equal
  }

  /** Swapping the operands flips the result. */
  ghost predicate Antisymmetric<T(!new)>(cmp: (T, T) -> Cmp) {
    forall x, y :: cmp(x, y) == Flip(cmp(y, x))
  }

  /** "Not greater" is transitive. */
  ghost predicate Transitive<T(!new)>(cmp: (T, T) -> Cmp) {
    forall x, y, z :: cmp(x, y) != Greater && cmp(y, z) != Greater ==> cmp(x, z) != Greater
  }

  ghost predicate TotalPreorder<T(!new)>(cmp: (T, T) -> Cmp) {
    Reflexive(cmp) && Antisymmetric(cmp) && Transitive(cmp)
  }

  function CompareNat(a: nat, b: nat): (c: Cmp)
    ensures c == Less <==> a < b
    ensures c == Equal <==> a == b
    ensures c == Greater <==> a > b
  {
    if a < b then Less else if a > b then Greater else Equal
  }

  /** Characters compare by code point. */
  function CompareChar(a: char, b: char): (c: Cmp)
    ensures c == Less <==> a < b
    ensures c == Equal <==> a == b
    ensures c == Greater <==> a > b
  {
    CompareNat(a as nat, b as nat)
  }

  lemma CompareNatPreorder()
    ensures TotalPreorder(CompareNat)
  {
  }

  lemma CompareCharPreorder()
    ensures TotalPreorder(CompareChar)
  {
  }

  /** Lexicographic comparison: the first position where the elements differ
      decides; when one sequence is a prefix of the other, the shorter one is
      smaller. */
  function Lex<T>(a: seq<T>, b: seq<T>, cmp: (T, T) -> Cmp): Cmp {
    if a == [] then (if b == [] then Equal else Less)
    else if b == [] then Greater
    else
      var c := cmp(a[0], b[0]);
      if c != Equal then c else Lex(a[1..], b[1..], cmp)
  }

  /** A proper prefix sorts below the longer sequence. */
  lemma {:induction false} LexPrefix<T(!new)>(a: seq<T>, b: seq<T>, cmp: (T, T) -> Cmp)
    requires Reflexive(cmp)
    requires |b| > 0
    ensures Lex(a, a + b, cmp) == Less
  {
    if a != [] {
      assert (a + b)[0] == a[0];
      assert (a + b)[1..] == a[1..] + b;
      LexPrefix(a[1..], b, cmp);
    }
  }

  lemma {:induction false} LexReflexive<T(!new)>(a: seq<T>, cmp: (T, T) -> Cmp)
    requires Reflexive(cmp)
    ensures Lex(a, a, cmp) == Equal
  {
    if a != [] {
      LexReflexive(a[1..], cmp);
    }
  }

  lemma {:induction false} LexAntisymmetric<T(!new)>(a: seq<T>, b: seq<T>, cmp: (T, T) -> Cmp)
    requires Antisymmetric(cmp)
    ensures Lex(a, b, cmp) == Flip(Lex(b, a, cmp))
  {
    if a != [] && b != [] && cmp(a[0], b[0]) == Equal {
      LexAntisymmetric(a[1..], b[1..], cmp);
    }
  }

  lemma {:induction false} LexTransitive<T(!new)>(a: seq<T>, b: seq<T>, c: seq<T>, cmp: (T, T) -> Cmp)
    requires TotalPreorder(cmp)
    requires Lex(a, b, cmp) != Greater && Lex(b, c, cmp) != Greater
    ensures Lex(a, c, cmp) != Greater
  {
    if a != [] && b != [] && c != [] {
      var ab := cmp(a[0], b[0]);
      var bc := cmp(b[0], c[0]);
      if ab == Equal && bc == Equal {
        LexTransitive(a[1..], b[1..], c[1..], cmp);
        HeadsEqual(a[0], b[0], c[0], cmp);
      } else {
        HeadsStrict(a[0], b[0], c[0], cmp);
      }
    }
  }

  lemma {:induction false} HeadsEqual<T(!new)>(x: T, y: T, z: T, cmp: (T, T) -> Cmp)
    requires TotalPreorder(cmp)
    requires cmp(x, y) == Equal && cmp(y, z) == Equal
    ensures cmp(x, z) == Equal
  {
    assert cmp(z, y) == Equal && cmp(y, x) == Equal;
    assert cmp(z, x) != Greater;
  }

  lemma {:induction false} HeadsStrict<T(!new)>(x: T, y: T, z: T, cmp: (T, T) -> Cmp)
    requires TotalPreorder(cmp)
    requires cmp(x, y) != Greater && cmp(y, z) != Greater
    requires cmp(x, y) == Less || cmp(y, z) == Less
    ensures cmp(x, z) == Less
  {
    assert cmp(y, x) == Flip(cmp(x, y)) && cmp(z, y) == Flip(cmp(y, z));
    assert cmp(z, x) == Flip(cmp(x, z));
  }

}
