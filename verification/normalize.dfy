/** `remove_equivalences` and `remove_implications`: the two elimination passes that run
    before negation is pushed inward. */
module Normalize {
  import opened Terms
  import opened Formulas

  /** A weight that both rewrites decrease: an equivalence weighs more than the two
      implications it becomes, and an implication more than the disjunction it becomes. */
  function Weight(f: Formula): (w: nat)
    ensures w >= 1
  {
    match f
    case Atom(_) => 1
    case And(cs, _) => 1 + WeightSum(cs)
    case Or(cs, _) => 1 + WeightSum(cs)
    case Implies(a, b, _) => 2 + Weight(a) + Weight(b)
    case Iff(a, b, _) => 6 + 2 * Weight(a) + 2 * Weight(b)
    case ForAll(_, b, _) => 1 + Weight(b)
    case Exists(_, b, _) => 1 + Weight(b)
  }

  function WeightSum(cs: seq<Formula>): (s: nat)
    ensures forall i :: 0 <= i < |cs| ==> Weight(cs[i]) <= s
  {
    if cs == [] then 0 else Weight(cs[0]) + WeightSum(cs[1..])
  }

  lemma WeightSumPair(x: Formula, y: Formula)
    ensures WeightSum([x, y]) == Weight(x) + Weight(y)
  {
    assert [x, y][1..] == [y];
    assert [y][1..] == [];
    assert WeightSum([y]) == Weight(y) + WeightSum([]);
  }

  /** `remove_equivalences`: every `Iff(a, b)` becomes `And(Implies(a, b), Implies(b, a))`
      with the equivalence's own negation flag; predicates pass through untouched. */
  function RemoveEquivalences(f: Formula): (r: Formula)
    ensures Lacks(r, KIff)
    ensures Lacks(f, KIff) ==> r == f
    ensures f.Iff? ==> r.And? && r.negated == f.negated
    ensures !f.Iff? ==> KindOf(r) == KindOf(f)
    decreases Weight(f), 0
  {
    match f
    case Atom(_) => f
    case Iff(a, b, n) =>
      WeightSumPair(Implies(a, b, false), Implies(b, a, false));
      RemoveEquivalences(And([Implies(a, b, false), Implies(b, a, false)], n))
    case ForAll(v, b, n) => ForAll(v, RemoveEquivalences(b), n)
    case Exists(v, b, n) => Exists(v, RemoveEquivalences(b), n)
    case And(cs, n) => And(RemoveEquivalencesAll(cs), n)
    case Or(cs, n) => Or(RemoveEquivalencesAll(cs), n)
    case Implies(a, b, n) => Implies(RemoveEquivalences(a), RemoveEquivalences(b), n)
  }

  function RemoveEquivalencesAll(cs: seq<Formula>): (r: seq<Formula>)
    ensures |r| == |cs|
    ensures forall i :: 0 <= i < |cs| ==> r[i] == RemoveEquivalences(cs[i])
    decreases WeightSum(cs), 1
  {
    if cs == [] then [] else [RemoveEquivalences(cs[0])] + RemoveEquivalencesAll(cs[1..])
  }

  /** An equivalence becomes the conjunction of its two implications, each side with its
      own equivalences removed, and keeps its negation flag. */
  lemma RemoveEquivalencesIff(a: Formula, b: Formula, n: bool)
    ensures RemoveEquivalences(Iff(a, b, n))
         == And([Implies(RemoveEquivalences(a), RemoveEquivalences(b), false),
                 Implies(RemoveEquivalences(b), RemoveEquivalences(a), false)], n)
  {
  }

  /** Removing equivalences keeps the predicates of the formula, neither losing nor adding
      any. */
  lemma {:induction false} RemoveEquivalencesAtoms(f: Formula)
    ensures Atoms(RemoveEquivalences(f)) == Atoms(f)
    decreases Weight(f), 0
  {
    match f
    case Atom(_) =>
    case Iff(a, b, n) =>
      var g := And([Implies(a, b, false), Implies(b, a, false)], n);
      WeightSumPair(Implies(a, b, false), Implies(b, a, false));
      RemoveEquivalencesAtoms(g);
      AtomsPair(Implies(a, b, false), Implies(b, a, false), n);
    case ForAll(_, b, _) => RemoveEquivalencesAtoms(b);
    case Exists(_, b, _) => RemoveEquivalencesAtoms(b);
    case And(cs, _) => RemoveEquivalencesAllAtoms(cs);
    case Or(cs, _) => RemoveEquivalencesAllAtoms(cs);
    case Implies(a, b, _) => RemoveEquivalencesAtoms(a); RemoveEquivalencesAtoms(b);
  }

  /** The predicates of a two-child conjunction are those of its children. */
  lemma AtomsPair(x: Formula, y: Formula, n: bool)
    ensures Atoms(And([x, y], n)) == Atoms(x) + Atoms(y)
  {
    var g := And([x, y], n);
    forall p | p in Atoms(x) + Atoms(y) ensures p in Atoms(g) {
      if p in Atoms(x) { assert p in Atoms(g.children[0]); } else { assert p in Atoms(g.children[1]); }
    }
  }

  /** Removing equivalences introduces no connective other than conjunction and
      implication. */
  lemma {:induction false} RemoveEquivalencesKeepsKinds(f: Formula, k: Kind)
    requires k != KAnd && k != KImplies && Lacks(f, k)
    ensures Lacks(RemoveEquivalences(f), k)
    decreases Weight(f), 0
  {
    match f
    case Atom(_) =>
    case Iff(a, b, n) =>
      var g := And([Implies(a, b, false), Implies(b, a, false)], n);
      WeightSumPair(Implies(a, b, false), Implies(b, a, false));
      assert Lacks(g, k) by {
        assert g.children[0] == Implies(a, b, false) && g.children[1] == Implies(b, a, false);
      }
      RemoveEquivalencesKeepsKinds(g, k);
    case ForAll(_, b, _) => RemoveEquivalencesKeepsKinds(b, k);
    case Exists(_, b, _) => RemoveEquivalencesKeepsKinds(b, k);
    case And(cs, _) => RemoveEquivalencesAllKeepsKinds(cs, k);
    case Or(cs, _) => RemoveEquivalencesAllKeepsKinds(cs, k);
    case Implies(a, b, _) => RemoveEquivalencesKeepsKinds(a, k); RemoveEquivalencesKeepsKinds(b, k);
  }

  lemma {:induction false} RemoveEquivalencesAllKeepsKinds(cs: seq<Formula>, k: Kind)
    requires k != KAnd && k != KImplies && forall i :: 0 <= i < |cs| ==> Lacks(cs[i], k)
    ensures forall i :: 0 <= i < |cs| ==> Lacks(RemoveEquivalences(cs[i]), k)
    decreases WeightSum(cs), 1
  {
    forall i | 0 <= i < |cs| ensures Lacks(RemoveEquivalences(cs[i]), k) {
      RemoveEquivalencesKeepsKinds(cs[i], k);
    }
  }

  lemma {:induction false} RemoveEquivalencesAllAtoms(cs: seq<Formula>)
    ensures forall i :: 0 <= i < |cs| ==> Atoms(RemoveEquivalences(cs[i])) == Atoms(cs[i])
    decreases WeightSum(cs), 1
  {
    forall i | 0 <= i < |cs| ensures Atoms(RemoveEquivalences(cs[i])) == Atoms(cs[i]) {
      RemoveEquivalencesAtoms(cs[i]);
    }
  }

  /** `remove_implications`: every `Implies(a, b)` becomes `Or(not a, b)` with the
      implication's own negation flag. */
  function RemoveImplications(f: Formula): (r: Formula)
    ensures Lacks(r, KImplies)
    ensures forall k :: k != KOr && Lacks(f, k) ==> Lacks(r, k)
    ensures Lacks(f, KImplies) ==> r == f
    ensures f.Implies? ==> r.Or? && r.negated == f.negated
    ensures !f.Implies? ==> KindOf(r) == KindOf(f)
    decreases Weight(f), 0
  {
    match f
    case Atom(_) => f
    case Implies(a, b, n) =>
      assert Weight(Formulas.Negate(a)) == Weight(a);
      var g := Or([Formulas.Negate(a), b], n);
      WeightSumPair(Formulas.Negate(a), b);
      RemoveImplications(g)
    case ForAll(v, b, n) => ForAll(v, RemoveImplications(b), n)
    case Exists(v, b, n) => Exists(v, RemoveImplications(b), n)
    case And(cs, n) => And(RemoveImplicationsAll(cs), n)
    case Or(cs, n) => Or(RemoveImplicationsAll(cs), n)
    case Iff(a, b, n) => Iff(RemoveImplications(a), RemoveImplications(b), n)
  }

  function RemoveImplicationsAll(cs: seq<Formula>): (r: seq<Formula>)
    ensures |r| == |cs|
    ensures forall i :: 0 <= i < |cs| ==> r[i] == RemoveImplications(cs[i])
    decreases WeightSum(cs), 1
  {
    if cs == [] then [] else [RemoveImplications(cs[0])] + RemoveImplicationsAll(cs[1..])
  }
}
