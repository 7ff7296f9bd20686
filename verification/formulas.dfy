/** First-order formulas as the clause-form passes see them: predicates, the connectives
    `And`/`Or`, `Implication`, `Equivalence` and the quantifiers `ForAll`/`ThereExists`.
    Every non-atomic node carries its own negation flag; a predicate's flag is its polarity. */
module Formulas {
  import opened Terms

  datatype Formula =
    | Atom(pred: Predicate)
    | And(children: seq<Formula>, negated: bool)
    | Or(children: seq<Formula>, negated: bool)
    | Implies(antecedent: Formula, consequent: Formula, negated: bool)
    | Iff(left: Formula, right: Formula, negated: bool)
    | ForAll(variable: string, body: Formula, negated: bool)
    | Exists(variable: string, body: Formula, negated: bool)

  /** The node kinds, for stating which kinds a pass removes. */
  datatype Kind = KAtom | KAnd | KOr | KImplies | KIff | KForAll | KExists

  function KindOf(f: Formula): Kind
  {
    match f
    case Atom(_) => KAtom
    case And(_, _) => KAnd
    case Or(_, _) => KOr
    case Implies(_, _, _) => KImplies
    case Iff(_, _, _) => KIff
    case ForAll(_, _, _) => KForAll
    case Exists(_, _, _) => KExists
  }

  /** No node of kind `k` occurs anywhere in `f`. */
  predicate Lacks(f: Formula, k: Kind)
  {
    && KindOf(f) != k
    && match f
       case Atom(_) => true
       case And(cs, _) => forall i :: 0 <= i < |cs| ==> Lacks(cs[i], k)
       case Or(cs, _) => forall i :: 0 <= i < |cs| ==> Lacks(cs[i], k)
       case Implies(a, b, _) => Lacks(a, k) && Lacks(b, k)
       case Iff(a, b, _) => Lacks(a, k) && Lacks(b, k)
       case ForAll(_, b, _) => Lacks(b, k)
       case Exists(_, b, _) => Lacks(b, k)
  }

  /** The number of nodes, for termination of the passes whose recursion is not structural. */
  function Size(f: Formula): (n: nat)
    ensures n >= 1
  {
    match f
    case Atom(_) => 1
    case And(cs, _) => 1 + SizeAll(cs)
    case Or(cs, _) => 1 + SizeAll(cs)
    case Implies(a, b, _) => 1 + Size(a) + Size(b)
    case Iff(a, b, _) => 1 + Size(a) + Size(b)
    case ForAll(_, b, _) => 1 + Size(b)
    case Exists(_, b, _) => 1 + Size(b)
  }

  function SizeAll(cs: seq<Formula>): (n: nat)
    ensures forall i :: 0 <= i < |cs| ==> Size(cs[i]) <= n
  {
    if cs == [] then 0 else Size(cs[0]) + SizeAll(cs[1..])
  }

  /** Whether the node itself is negated; for a predicate, its polarity. */
  function IsNegated(f: Formula): bool
  {
    if f.Atom? then f.pred.negated else f.negated
  }

  /** `negate()`: toggles the node's own flag and changes nothing else. */
  function Negate(f: Formula): (r: Formula)
    ensures IsNegated(r) != IsNegated(f)
    ensures KindOf(r) == KindOf(f)
    ensures forall k :: Lacks(r, k) <==> Lacks(f, k)
  {
    match f
    case Atom(p) => Atom(Terms.Negate(p))
    case And(cs, n) => And(cs, !n)
    case Or(cs, n) => Or(cs, !n)
    case Implies(a, b, n) => Implies(a, b, !n)
    case Iff(a, b, n) => Iff(a, b, !n)
    case ForAll(v, b, n) => ForAll(v, b, !n)
    case Exists(v, b, n) => Exists(v, b, !n)
  }

  /** `ForAll.negate` twice is the identity. */
  lemma NegateTwice(f: Formula)
    ensures Negate(Negate(f)) == f
  {
  }

  /** The predicates a formula mentions, at any depth. */
  ghost function Atoms(f: Formula): set<Predicate>
  {
    match f
    case Atom(p) => {p}
    case And(cs, _) => set i, p | 0 <= i < |cs| && p in Atoms(cs[i]) :: p
    case Or(cs, _) => set i, p | 0 <= i < |cs| && p in Atoms(cs[i]) :: p
    case Implies(a, b, _) => Atoms(a) + Atoms(b)
    case Iff(a, b, _) => Atoms(a) + Atoms(b)
    case ForAll(_, b, _) => Atoms(b)
    case Exists(_, b, _) => Atoms(b)
  }

  /** The names of the predicate arguments' variables in a formula. */
  ghost function FormulaVars(f: Formula): set<string>
  {
    match f
    case Atom(p) => ArgsVars(p.args)
    case And(cs, _) => set i, x | 0 <= i < |cs| && x in FormulaVars(cs[i]) :: x
    case Or(cs, _) => set i, x | 0 <= i < |cs| && x in FormulaVars(cs[i]) :: x
    case Implies(a, b, _) => FormulaVars(a) + FormulaVars(b)
    case Iff(a, b, _) => FormulaVars(a) + FormulaVars(b)
    case ForAll(_, b, _) => FormulaVars(b)
    case Exists(_, b, _) => FormulaVars(b)
  }
}
