/** `to_cnf`: `vertical_merge`, then `push_or`, then `vertical_merge` again. */
module Cnf {
  import opened Terms
  import opened Formulas

  /** No `And` has an `And` child and no `Or` has an `Or` child, along connective paths;
      `vertical_merge` does not look inside other nodes. The negation flag plays no part,
      as the source compares classes only. */
  predicate Flat(f: Formula)
  {
    match f
    case And(cs, _) => forall i :: 0 <= i < |cs| ==> !cs[i].And? && Flat(cs[i])
    case Or(cs, _) => forall i :: 0 <= i < |cs| ==> !cs[i].Or? && Flat(cs[i])
    case _ => true
  }

  /** The predicates of a list of formulas. */
  ghost function AtomsAll(cs: seq<Formula>): set<Predicate>
  {
    set i, p | 0 <= i < |cs| && p in Atoms(cs[i]) :: p
  }

  lemma AtomsAllConcat(a: seq<Formula>, b: seq<Formula>)
    ensures AtomsAll(a + b) == AtomsAll(a) + AtomsAll(b)
  {
    forall p | p in AtomsAll(a + b) ensures p in AtomsAll(a) + AtomsAll(b) {
      var i :| 0 <= i < |a + b| && p in Atoms((a + b)[i]);
      if i >= |a| { assert (a + b)[i] == b[i - |a|]; }
    }
    forall p | p in AtomsAll(a) ensures p in AtomsAll(a + b) {
      var i :| 0 <= i < |a| && p in Atoms(a[i]);
      assert (a + b)[i] == a[i];
    }
    forall p | p in AtomsAll(b) ensures p in AtomsAll(a + b) {
      var i :| 0 <= i < |b| && p in Atoms(b[i]);
      assert (a + b)[i + |a|] == b[i];
    }
  }

  lemma AtomsAllSingle(f: Formula)
    ensures AtomsAll([f]) == Atoms(f)
  {
    assert forall p :: p in Atoms(f) ==> p in Atoms([f][0]);
  }

  /** `vertical_merge`: bottom-up, a connective's children of its own kind are replaced by
      their (already merged) children. */
  function Merge(f: Formula): (r: Formula)
    ensures Flat(r)
    ensures KindOf(r) == KindOf(f)
    ensures Flat(f) ==> r == f
    ensures Atoms(r) == Atoms(f)
    ensures (f.And? || f.Or?) ==> r.negated == f.negated
  {
    match f
    case And(cs, n) => And(MergeChildren(cs, KAnd), n)
    case Or(cs, n) => Or(MergeChildren(cs, KOr), n)
    case _ => f
  }

  /** The children of a connective of kind `k`, merged and spliced. */
  function MergeChildren(cs: seq<Formula>, k: Kind): (r: seq<Formula>)
    requires k == KAnd || k == KOr
    ensures forall i :: 0 <= i < |r| ==> KindOf(r[i]) != k && Flat(r[i])
    ensures (forall i :: 0 <= i < |cs| ==> KindOf(cs[i]) != k && Flat(cs[i])) ==> r == cs
    ensures AtomsAll(r) == AtomsAll(cs)
  {
    if cs == [] then []
    else
      var m := Merge(cs[0]);
      var head := Spliced(m, k);
      var tail := MergeChildren(cs[1..], k);
      AtomsAllConcat(head, tail);
      AtomsAllConcat([cs[0]], cs[1..]);
      assert [cs[0]] + cs[1..] == cs;
      AtomsAllSingle(m);
      AtomsAllSingle(cs[0]);
      assert forall i :: 0 < i < |cs| ==> cs[i] == cs[1..][i - 1];
      head + tail
  }

  /** What a merged child contributes to its parent of kind `k`: its own children when it
      has the parent's kind, itself otherwise. */
  function Spliced(m: Formula, k: Kind): seq<Formula>
    requires k == KAnd || k == KOr
  {
    if KindOf(m) == k then m.children else [m]
  }

  /** No `Or` has a direct `And` child, along the nodes `push_or` visits: connectives,
      implications and equivalences. */
  predicate Normal(f: Formula)
  {
    match f
    case And(cs, _) => forall i :: 0 <= i < |cs| ==> Normal(cs[i])
    case Or(cs, _) => forall i :: 0 <= i < |cs| ==> !cs[i].And? && Normal(cs[i])
    case Implies(a, b, _) => Normal(a) && Normal(b)
    case Iff(a, b, _) => Normal(a) && Normal(b)
    case _ => true
  }

  /** Built from predicates, `And` and `Or` only: the input `to_cnf` expects once
      implications, equivalences and quantifiers are gone. */
  predicate Propositional(f: Formula)
  {
    match f
    case Atom(_) => true
    case And(cs, _) => forall i :: 0 <= i < |cs| ==> Propositional(cs[i])
    case Or(cs, _) => forall i :: 0 <= i < |cs| ==> Propositional(cs[i])
    case _ => false
  }

  /** No connective carries a negation flag: negation sits on predicates only, as it does
      once negation has been pushed inward. */
  predicate Positive(f: Formula)
  {
    match f
    case And(cs, n) => !n && forall i :: 0 <= i < |cs| ==> Positive(cs[i])
    case Or(cs, n) => !n && forall i :: 0 <= i < |cs| ==> Positive(cs[i])
    case _ => true
  }

  /** The truth value of a formula of predicates, `And` and `Or` when each literal is given
      one by `val`: the reference meaning that normalisation and clause extraction keep.
      Implications, equivalences and quantifiers have no truth value here and count as false. */
  predicate Eval(f: Formula, val: Predicate -> bool)
  {
    match f
    case Atom(p) => val(p)
    case And(cs, n) => (forall i :: 0 <= i < |cs| ==> Eval(cs[i], val)) != n
    case Or(cs, n) => (exists i :: 0 <= i < |cs| && Eval(cs[i], val)) != n
    case _ => false
  }

  /** Every formula of `cs` holds / some formula of `cs` holds. */
  predicate AllHold(cs: seq<Formula>, val: Predicate -> bool)
  {
    forall i :: 0 <= i < |cs| ==> Eval(cs[i], val)
  }

  predicate SomeHolds(cs: seq<Formula>, val: Predicate -> bool)
  {
    exists i :: 0 <= i < |cs| && Eval(cs[i], val)
  }

  lemma HoldConcat(a: seq<Formula>, b: seq<Formula>, val: Predicate -> bool)
    ensures AllHold(a + b, val) == (AllHold(a, val) && AllHold(b, val))
    ensures SomeHolds(a + b, val) == (SomeHolds(a, val) || SomeHolds(b, val))
  {
    assert forall i :: 0 <= i < |a| ==> (a + b)[i] == a[i];
    assert forall i :: 0 <= i < |b| ==> (a + b)[|a| + i] == b[i];
    if SomeHolds(a + b, val) {
      var i :| 0 <= i < |a + b| && Eval((a + b)[i], val);
      if i >= |a| { assert Eval(b[i - |a|], val); }
    }
    if AllHold(a, val) && AllHold(b, val) {
      forall i | 0 <= i < |a + b| ensures Eval((a + b)[i], val) {
        if i >= |a| { assert (a + b)[i] == b[i - |a|]; }
      }
    }
  }

  lemma HoldSingle(f: Formula, val: Predicate -> bool)
    ensures AllHold([f], val) == Eval(f, val) && SomeHolds([f], val) == Eval(f, val)
  {
    assert [f][0] == f;
  }

  /** Multiplication by repeated addition, so that the measure's arithmetic stays linear
      for the solver; the laws used are proved below. */
  function Times(a: nat, b: nat): nat
  {
    if a == 0 then 0 else b + Times(a - 1, b)
  }

  lemma {:induction false} TimesAddLeft(a: nat, c: nat, b: nat)
    ensures Times(a + c, b) == Times(a, b) + Times(c, b)
  {
    if a > 0 {
      TimesAddLeft(a - 1, c, b);
    }
  }

  lemma {:induction false} TimesMonoRight(a: nat, b: nat, d: nat)
    requires b <= d
    ensures Times(a, b) <= Times(a, d)
  {
    if a > 0 {
      TimesMonoRight(a - 1, b, d);
    }
  }

  lemma {:induction false} TimesOneRight(a: nat)
    ensures Times(a, 1) == a
  {
    if a > 0 {
      TimesOneRight(a - 1);
    }
  }

  lemma {:induction false} TimesSuccRight(a: nat, b: nat)
    ensures Times(a, b + 1) == Times(a, b) + a
  {
    if a > 0 {
      TimesSuccRight(a - 1, b);
    }
  }

  lemma {:induction false} TimesZeroRight(a: nat)
    ensures Times(a, 0) == 0
  {
    if a > 0 {
      TimesZeroRight(a - 1);
    }
  }

  lemma {:induction false} TimesComm(a: nat, b: nat)
    ensures Times(a, b) == Times(b, a)
    decreases b
  {
    if b == 0 {
      TimesZeroRight(a);
    } else {
      TimesSuccRight(a, b - 1);
      TimesComm(a, b - 1);
      assert Times(b, a) == a + Times(b - 1, a);
    }
  }

  lemma {:induction false} TimesAssoc(a: nat, b: nat, c: nat)
    ensures Times(Times(a, b), c) == Times(a, Times(b, c))
  {
    if a > 0 {
      TimesAssoc(a - 1, b, c);
      TimesAddLeft(b, Times(a - 1, b), c);
    }
  }

  /** Monotonicity in both arguments, and strictness on the left. */
  lemma TimesMono(a: nat, b: nat, c: nat, d: nat)
    requires a <= b && c <= d
    ensures Times(a, c) <= Times(b, d)
  {
    TimesAddLeft(a, b - a, c);
    TimesMonoRight(b, c, d);
  }

  lemma TimesStrictLeft(a: nat, b: nat, c: nat)
    requires a < b && c >= 1
    ensures Times(a, c) < Times(b, c)
  {
    TimesAddLeft(a, b - a, c);
    TimesMonoRight(b - a, 1, c);
    TimesOneRight(b - a);
  }

  /** A termination measure for distribution: a disjunction weighs the product of its
      children, a conjunction two more than their sum, so that
      `Or([c] + rest)` weighs less than `Or([And(cs)] + rest)` for every `c` in `cs`. */
  function Mu(f: Formula): (m: nat)
    ensures m >= 1
  {
    match f
    case And(cs, _) => 2 + MuSum(cs)
    case Or(cs, _) => MuProd(cs)
    case Implies(a, b, _) => 1 + Mu(a) + Mu(b)
    case Iff(a, b, _) => 1 + Mu(a) + Mu(b)
    case _ => 2
  }

  function MuSum(cs: seq<Formula>): (m: nat)
    ensures forall i :: 0 <= i < |cs| ==> Mu(cs[i]) <= m
  {
    if cs == [] then 0 else Mu(cs[0]) + MuSum(cs[1..])
  }

  function MuProd(cs: seq<Formula>): (m: nat)
    ensures m >= 1
    ensures forall i :: 0 <= i < |cs| ==> Mu(cs[i]) <= m
  {
    if cs == [] then 1
    else
      var t := MuProd(cs[1..]);
      TimesMono(1, Mu(cs[0]), t, t);
      TimesOneRight(t);
      TimesComm(1, t);
      TimesMono(Mu(cs[0]), Mu(cs[0]), 1, t);
      TimesOneRight(Mu(cs[0]));
      Times(Mu(cs[0]), t)
  }

  lemma {:induction false} MuProdConcat(a: seq<Formula>, b: seq<Formula>)
    ensures MuProd(a + b) == Times(MuProd(a), MuProd(b))
  {
    if a != [] {
      assert (a + b)[1..] == a[1..] + b;
      MuProdConcat(a[1..], b);
      TimesAssoc(Mu(a[0]), MuProd(a[1..]), MuProd(b));
    } else {
      assert a + b == b;
      TimesOneRight(MuProd(b));
      TimesComm(1, MuProd(b));
    }
  }

  /** The position of the first `And` in `cs`, or `|cs|` when there is none. */
  function FirstAnd(cs: seq<Formula>): (j: nat)
    ensures j <= |cs|
    ensures j < |cs| ==> cs[j].And?
    ensures forall i :: 0 <= i < j ==> !cs[i].And?
  {
    if cs == [] then 0
    else if cs[0].And? then 0
    else 1 + FirstAnd(cs[1..])
  }

  /** The largest measure among `cs`, 0 for none. */
  function MuMax(cs: seq<Formula>): (m: nat)
    ensures cs == [] ==> m == 0
    ensures cs != [] ==> exists i :: 0 <= i < |cs| && m == Mu(cs[i])
    ensures forall i :: 0 <= i < |cs| ==> Mu(cs[i]) <= m
  {
    if cs == [] then 0
    else
      var t := MuMax(cs[1..]);
      var h := Mu(cs[0]);
      assert forall i :: 0 < i < |cs| ==> cs[i] == cs[1..][i - 1];
      if h > t then h else t
  }

  /** `push_or`: children first; an `Or` with an `And` child `And(cs)` (the first one) and
      other children `rest` becomes `And([Or([c] + rest) for c in cs])`, each new `Or` pushed
      again. Quantifiers and predicates are left alone. */
  function PushOr(f: Formula): (r: Formula)
    ensures Mu(r) <= Mu(f)
    decreases Mu(f), 2, Size(f), 0
  {
    match f
    case Or(cs, n) => PushOrChildren(PushOrAll(cs), n)
    case And(cs, n) => And(PushOrAll(cs), n)
    case Implies(a, b, n) => Implies(PushOr(a), PushOr(b), n)
    case Iff(a, b, n) => Iff(PushOr(a), PushOr(b), n)
    case _ => f
  }

  /** The `Or` case once its children `ps` are pushed: distribute over the first `And`
      child if there is one. */
  function PushOrChildren(ps: seq<Formula>, n: bool): (r: Formula)
    ensures Mu(r) <= MuProd(ps)
    decreases MuProd(ps), 1, 0, 0
  {
    var j := FirstAnd(ps);
    if j == |ps| then Or(ps, n)
    else
      var rest := ps[..j] + ps[j + 1..];
      SplitAt(ps, j);
      var d := Distribute(ps[j].children, rest);
      TimesAddLeft(2, MuSum(ps[j].children), MuProd(rest));
      TimesMonoRight(2, 1, MuProd(rest));
      TimesOneRight(2);
      And(d, false)
  }

  /** Removing the element at `j` divides it out of the product. */
  lemma SplitAt(ps: seq<Formula>, j: nat)
    requires j < |ps|
    ensures MuProd(ps) == Times(Mu(ps[j]), MuProd(ps[..j] + ps[j + 1..]))
  {
    assert ps == ps[..j] + ([ps[j]] + ps[j + 1..]);
    MuProdRemove(ps[..j], ps[j], ps[j + 1..]);
  }

  lemma MuProdRemove(pre: seq<Formula>, x: Formula, post: seq<Formula>)
    ensures MuProd(pre + ([x] + post)) == Times(Mu(x), MuProd(pre + post))
  {
    MuProdConcat(pre, [x] + post);
    MuProdConcat(pre, post);
    assert MuProd([x] + post) == Times(Mu(x), MuProd(post)) by {
      assert ([x] + post)[1..] == post;
    }
    TimesSwap(MuProd(pre), Mu(x), MuProd(post));
  }

  lemma TimesSwap(a: nat, b: nat, c: nat)
    ensures Times(a, Times(b, c)) == Times(b, Times(a, c))
  {
    TimesAssoc(a, b, c);
    TimesComm(a, b);
    TimesAssoc(b, a, c);
  }

  function PushOrAll(cs: seq<Formula>): (r: seq<Formula>)
    ensures |r| == |cs|
    ensures forall i :: 0 <= i < |cs| ==> r[i] == PushOr(cs[i])
    ensures MuSum(r) <= MuSum(cs) && MuProd(r) <= MuProd(cs)
    decreases MuMax(cs), 2, SizeAll(cs), 1
  {
    if cs == [] then []
    else
      var h := PushOr(cs[0]);
      var t := PushOrAll(cs[1..]);
      var r := [h] + t;
      assert r[1..] == t;
      TimesMono(Mu(h), Mu(cs[0]), MuProd(t), MuProd(cs[1..]));
      r
  }

  /** One step of `Distribute` decreases its measure: the disjunction built from the first
      conjunct weighs less than the whole, and so does the remaining distribution. */
  lemma DistributeMeasure(conjuncts: seq<Formula>, rest: seq<Formula>)
    requires conjuncts != []
    ensures var o := Or([conjuncts[0]] + rest, false);
            && Mu(o) == Times(Mu(conjuncts[0]), MuProd(rest))
            && Mu(o) < Times(2 + MuSum(conjuncts), MuProd(rest))
            && Times(2 + MuSum(conjuncts[1..]), MuProd(rest)) <= Times(2 + MuSum(conjuncts), MuProd(rest))
  {
    var c := conjuncts[0];
    MuOrCons(c, rest);
    assert MuSum(conjuncts) == Mu(c) + MuSum(conjuncts[1..]);
    DistributeArith(Mu(c), MuSum(conjuncts[1..]), MuSum(conjuncts), MuProd(rest));
  }

  lemma MuOrCons(c: Formula, rest: seq<Formula>)
    ensures Mu(Or([c] + rest, false)) == Times(Mu(c), MuProd(rest))
  {
    assert ([c] + rest)[1..] == rest && ([c] + rest)[0] == c;
  }

  lemma DistributeArith(m: nat, s: nat, total: nat, p: nat)
    requires p >= 1 && total == m + s
    ensures Times(m, p) < Times(2 + total, p)
    ensures Times(2 + s, p) <= Times(2 + total, p)
  {
    TimesStrictLeft(m, 2 + total, p);
    TimesMono(2 + s, 2 + total, p, p);
  }

  /** The new disjunctions `Or([c] + rest)`, one per conjunct `c`, each pushed again. */
  function Distribute(conjuncts: seq<Formula>, rest: seq<Formula>): (r: seq<Formula>)
    ensures |r| == |conjuncts|
    ensures MuSum(r) <= Times(MuSum(conjuncts), MuProd(rest))
    decreases Times(2 + MuSum(conjuncts), MuProd(rest)), 0, |conjuncts|, 0
  {
    if conjuncts == [] then []
    else
      var c := conjuncts[0];
      var o := Or([c] + rest, false);
      DistributeMeasure(conjuncts, rest);
      var h := PushOr(o);
      var t := Distribute(conjuncts[1..], rest);
      assert forall i :: 0 < i < |conjuncts| ==> conjuncts[i] == conjuncts[1..][i - 1];
      var r := [h] + t;
      assert r[1..] == t;
      TimesAddLeft(Mu(c), MuSum(conjuncts[1..]), MuProd(rest));
      r
  }

  /** After `push_or` no disjunction has a conjunction as a direct child. */
  lemma {:induction false} PushOrNormal(f: Formula)
    ensures Normal(PushOr(f))
    decreases Mu(f), 2, Size(f), 0
  {
    match f
    case Or(cs, n) =>
      PushOrAllNormal(cs);
      PushOrChildrenNormal(PushOrAll(cs), n);
    case And(cs, n) => PushOrAllNormal(cs);
    case Implies(a, b, n) =>
      PushOrNormal(a);
      PushOrNormal(b);
    case Iff(a, b, n) =>
      PushOrNormal(a);
      PushOrNormal(b);
    case _ =>
  }

  lemma {:induction false} PushOrAllNormal(cs: seq<Formula>)
    ensures forall i :: 0 <= i < |cs| ==> Normal(PushOrAll(cs)[i])
    decreases MuMax(cs), 2, SizeAll(cs), 1
  {
    forall i | 0 <= i < |cs| ensures Normal(PushOrAll(cs)[i]) {
      PushOrNormal(cs[i]);
    }
  }

  lemma {:induction false} PushOrChildrenNormal(ps: seq<Formula>, n: bool)
    requires forall i :: 0 <= i < |ps| ==> Normal(ps[i])
    ensures Normal(PushOrChildren(ps, n))
    decreases MuProd(ps), 1, 0, 0
  {
    var j := FirstAnd(ps);
    if j < |ps| {
      var rest := ps[..j] + ps[j + 1..];
      SplitAt(ps, j);
      DistributeNormal(ps[j].children, rest);
    }
  }

  lemma {:induction false} DistributeNormal(conjuncts: seq<Formula>, rest: seq<Formula>)
    ensures forall i :: 0 <= i < |conjuncts| ==> Normal(Distribute(conjuncts, rest)[i])
    decreases Times(2 + MuSum(conjuncts), MuProd(rest)), 0, |conjuncts|, 0
  {
    if conjuncts != [] {
      var c := conjuncts[0];
      var o := Or([c] + rest, false);
      DistributeMeasure(conjuncts, rest);
      PushOrNormal(o);
      DistributeNormal(conjuncts[1..], rest);
      assert forall i :: 0 < i < |conjuncts| ==> conjuncts[i] == conjuncts[1..][i - 1];
    }
  }

  /** A formula already in that shape is left as it is, so pushing twice is pushing once. */
  lemma {:induction false} PushOrFixesNormal(f: Formula)
    requires Normal(f)
    ensures PushOr(f) == f
    decreases Size(f)
  {
    match f
    case Or(cs, n) =>
      forall i | 0 <= i < |cs| ensures PushOr(cs[i]) == cs[i] {
        PushOrFixesNormal(cs[i]);
      }
      assert PushOrAll(cs) == cs;
    case And(cs, n) =>
      forall i | 0 <= i < |cs| ensures PushOr(cs[i]) == cs[i] {
        PushOrFixesNormal(cs[i]);
      }
      assert PushOrAll(cs) == cs;
    case Implies(a, b, n) =>
      PushOrFixesNormal(a);
      PushOrFixesNormal(b);
    case Iff(a, b, n) =>
      PushOrFixesNormal(a);
      PushOrFixesNormal(b);
    case _ =>
  }

  lemma PushOrIdempotent(f: Formula)
    ensures PushOr(PushOr(f)) == PushOr(f)
  {
    PushOrNormal(f);
    PushOrFixesNormal(PushOr(f));
  }

  /** `push_or` builds only `And` and `Or` nodes around the predicates it is given. */
  lemma {:induction false} PushOrPropositional(f: Formula)
    requires Propositional(f)
    ensures Propositional(PushOr(f))
    decreases Mu(f), 2, Size(f), 0
  {
    match f
    case Or(cs, n) =>
      PushOrAllPropositional(cs);
      PushOrChildrenPropositional(PushOrAll(cs), n);
    case And(cs, n) => PushOrAllPropositional(cs);
    case Atom(_) =>
  }

  lemma {:induction false} PushOrAllPropositional(cs: seq<Formula>)
    requires forall i :: 0 <= i < |cs| ==> Propositional(cs[i])
    ensures forall i :: 0 <= i < |cs| ==> Propositional(PushOrAll(cs)[i])
    decreases MuMax(cs), 2, SizeAll(cs), 1
  {
    forall i | 0 <= i < |cs| ensures Propositional(PushOrAll(cs)[i]) {
      PushOrPropositional(cs[i]);
    }
  }

  lemma {:induction false} PushOrChildrenPropositional(ps: seq<Formula>, n: bool)
    requires forall i :: 0 <= i < |ps| ==> Propositional(ps[i])
    ensures Propositional(PushOrChildren(ps, n))
    decreases MuProd(ps), 1, 0, 0
  {
    var j := FirstAnd(ps);
    if j < |ps| {
      var rest := ps[..j] + ps[j + 1..];
      SplitAt(ps, j);
      assert forall i :: 0 <= i < |rest| ==> rest[i] in ps;
      DistributePropositional(ps[j].children, rest);
    }
  }

  lemma PropositionalOrCons(c: Formula, rest: seq<Formula>)
    requires Propositional(c) && forall i :: 0 <= i < |rest| ==> Propositional(rest[i])
    ensures Propositional(Or([c] + rest, false))
  {
    var cs := [c] + rest;
    forall i | 0 <= i < |cs| ensures Propositional(cs[i]) {
      if i > 0 { assert cs[i] == rest[i - 1]; }
    }
  }

  lemma {:induction false} DistributePropositional(conjuncts: seq<Formula>, rest: seq<Formula>)
    requires forall i :: 0 <= i < |conjuncts| ==> Propositional(conjuncts[i])
    requires forall i :: 0 <= i < |rest| ==> Propositional(rest[i])
    ensures forall i :: 0 <= i < |conjuncts| ==> Propositional(Distribute(conjuncts, rest)[i])
    decreases Times(2 + MuSum(conjuncts), MuProd(rest)), 0, |conjuncts|, 0
  {
    if conjuncts != [] {
      var c := conjuncts[0];
      var o := Or([c] + rest, false);
      DistributeMeasure(conjuncts, rest);
      PropositionalOrCons(c, rest);
      PushOrPropositional(o);
      DistributePropositional(conjuncts[1..], rest);
      var r := Distribute(conjuncts, rest);
      assert forall i :: 0 < i < |conjuncts| ==> r[i] == Distribute(conjuncts[1..], rest)[i - 1];
    }
  }

  /** Merging splices connectives into connectives of the same kind, so it keeps both shapes. */
  lemma {:induction false} MergeKeepsShape(f: Formula)
    ensures Normal(f) ==> Normal(Merge(f))
    ensures Propositional(f) ==> Propositional(Merge(f))
  {
    match f
    case And(cs, _) => MergeChildrenKeepsShape(cs, KAnd);
    case Or(cs, _) => MergeChildrenKeepsShape(cs, KOr);
    case _ =>
  }

  lemma {:induction false} MergeChildrenKeepsShape(cs: seq<Formula>, k: Kind)
    requires k == KAnd || k == KOr
    ensures (forall i :: 0 <= i < |cs| ==> Normal(cs[i]) && (k == KOr ==> !cs[i].And?)) ==>
      forall i :: 0 <= i < |MergeChildren(cs, k)| ==>
        Normal(MergeChildren(cs, k)[i]) && (k == KOr ==> !MergeChildren(cs, k)[i].And?)
    ensures (forall i :: 0 <= i < |cs| ==> Propositional(cs[i])) ==>
      forall i :: 0 <= i < |MergeChildren(cs, k)| ==> Propositional(MergeChildren(cs, k)[i])
    decreases cs
  {
    if cs != [] {
      MergeKeepsShape(cs[0]);
      MergeChildrenKeepsShape(cs[1..], k);
      assert forall i :: 0 < i < |cs| ==> cs[i] == cs[1..][i - 1];
    }
  }

  /** Merging keeps the meaning of a positive formula: a spliced conjunction's children
      hold together exactly when it does, and a spliced disjunction's children hold
      somewhere exactly when it does. */
  lemma {:induction false} MergeMeaning(f: Formula, val: Predicate -> bool)
    requires Positive(f)
    ensures Positive(Merge(f)) && Eval(Merge(f), val) == Eval(f, val)
  {
    match f
    case And(cs, _) => MergeChildrenMeaning(cs, KAnd, val);
    case Or(cs, _) => MergeChildrenMeaning(cs, KOr, val);
    case _ =>
  }

  lemma {:induction false} MergeChildrenMeaning(cs: seq<Formula>, k: Kind, val: Predicate -> bool)
    requires k == KAnd || k == KOr
    requires forall i :: 0 <= i < |cs| ==> Positive(cs[i])
    ensures forall i :: 0 <= i < |MergeChildren(cs, k)| ==> Positive(MergeChildren(cs, k)[i])
    ensures k == KAnd ==> AllHold(MergeChildren(cs, k), val) == AllHold(cs, val)
    ensures k == KOr ==> SomeHolds(MergeChildren(cs, k), val) == SomeHolds(cs, val)
    decreases cs
  {
    if cs != [] {
      var head := Spliced(Merge(cs[0]), k);
      var tail := MergeChildren(cs[1..], k);
      MergeMeaning(cs[0], val);
      MergeHeadMeaning(cs[0], k, val);
      MergeChildrenMeaning(cs[1..], k, val);
      assert MergeChildren(cs, k) == head + tail;
      SplicedConcatMeaning(cs, head, tail, k, val);
    }
  }

  /** Joining the first child's contribution to the merged rest keeps the meaning of `cs`. */
  lemma SplicedConcatMeaning(cs: seq<Formula>, head: seq<Formula>, tail: seq<Formula>, k: Kind, val: Predicate -> bool)
    requires cs != [] && (k == KAnd || k == KOr)
    requires forall i :: 0 <= i < |head| ==> Positive(head[i])
    requires k == KAnd ==> AllHold(head, val) == Eval(cs[0], val)
    requires k == KOr ==> SomeHolds(head, val) == Eval(cs[0], val)
    requires forall i :: 0 <= i < |tail| ==> Positive(tail[i])
    requires k == KAnd ==> AllHold(tail, val) == AllHold(cs[1..], val)
    requires k == KOr ==> SomeHolds(tail, val) == SomeHolds(cs[1..], val)
    ensures forall i :: 0 <= i < |head + tail| ==> Positive((head + tail)[i])
    ensures k == KAnd ==> AllHold(head + tail, val) == AllHold(cs, val)
    ensures k == KOr ==> SomeHolds(head + tail, val) == SomeHolds(cs, val)
  {
    assert cs == [cs[0]] + cs[1..];
    HoldConcat([cs[0]], cs[1..], val);
    HoldConcat(head, tail, val);
    HoldSingle(cs[0], val);
    PositiveConcat(head, tail);
  }

  lemma PositiveConcat(a: seq<Formula>, b: seq<Formula>)
    requires forall i :: 0 <= i < |a| ==> Positive(a[i])
    requires forall i :: 0 <= i < |b| ==> Positive(b[i])
    ensures forall i :: 0 <= i < |a + b| ==> Positive((a + b)[i])
  {
    forall i | 0 <= i < |a + b| ensures Positive((a + b)[i]) {
      if i >= |a| { assert (a + b)[i] == b[i - |a|]; }
    }
  }

  /** What one merged child contributes to its parent of kind `k`. */
  lemma MergeHeadMeaning(c: Formula, k: Kind, val: Predicate -> bool)
    requires k == KAnd || k == KOr
    requires Positive(Merge(c)) && Eval(Merge(c), val) == Eval(c, val)
    ensures var head := Spliced(Merge(c), k);
            && (forall i :: 0 <= i < |head| ==> Positive(head[i]))
            && (k == KAnd ==> AllHold(head, val) == Eval(c, val))
            && (k == KOr ==> SomeHolds(head, val) == Eval(c, val))
  {
    HoldSingle(Merge(c), val);
  }

  /** `push_or` keeps the meaning of a positive formula: distributing a disjunction over
      its conjunction child is the law `(a & b) | r == (a | r) & (b | r)`. */
  lemma {:induction false} PushOrMeaning(f: Formula, val: Predicate -> bool)
    requires Positive(f)
    ensures Positive(PushOr(f)) && Eval(PushOr(f), val) == Eval(f, val)
    decreases Mu(f), 2, Size(f), 0
  {
    match f
    case Or(cs, n) =>
      PushOrAllMeaning(cs, val);
      PushOrChildrenMeaning(PushOrAll(cs), val);
    case And(cs, n) => PushOrAllMeaning(cs, val);
    case _ =>
  }

  lemma {:induction false} PushOrAllMeaning(cs: seq<Formula>, val: Predicate -> bool)
    requires forall i :: 0 <= i < |cs| ==> Positive(cs[i])
    ensures forall i :: 0 <= i < |cs| ==>
      Positive(PushOrAll(cs)[i]) && Eval(PushOrAll(cs)[i], val) == Eval(cs[i], val)
    decreases MuMax(cs), 2, SizeAll(cs), 1
  {
    forall i | 0 <= i < |cs| ensures Positive(PushOrAll(cs)[i]) && Eval(PushOrAll(cs)[i], val) == Eval(cs[i], val) {
      PushOrMeaning(cs[i], val);
    }
  }

  lemma {:induction false} PushOrChildrenMeaning(ps: seq<Formula>, val: Predicate -> bool)
    requires forall i :: 0 <= i < |ps| ==> Positive(ps[i])
    ensures Positive(PushOrChildren(ps, false))
    ensures Eval(PushOrChildren(ps, false), val) == SomeHolds(ps, val)
    decreases MuProd(ps), 1, 0, 0
  {
    var j := FirstAnd(ps);
    if j < |ps| {
      var rest := ps[..j] + ps[j + 1..];
      SplitAt(ps, j);
      assert forall i :: 0 <= i < |rest| ==> rest[i] in ps;
      var cs := ps[j].children;
      DistributeMeaning(cs, rest, val);
      DistributedHolds(ps, j, Distribute(cs, rest), val);
    }
  }

  /** Disjunctions `c | rest`, one per conjunct `c` of the `And` at `j`, hold together
      exactly when one of `ps` holds. */
  lemma DistributedHolds(ps: seq<Formula>, j: nat, d: seq<Formula>, val: Predicate -> bool)
    requires j < |ps| && ps[j].And? && Positive(ps[j])
    requires |d| == |ps[j].children|
    requires forall i :: 0 <= i < |d| ==>
      Eval(d[i], val) == (Eval(ps[j].children[i], val) || SomeHolds(ps[..j] + ps[j + 1..], val))
    ensures AllHold(d, val) == SomeHolds(ps, val)
  {
    var cs, rest := ps[j].children, ps[..j] + ps[j + 1..];
    assert ps == ps[..j] + [ps[j]] + ps[j + 1..];
    HoldConcat(ps[..j] + [ps[j]], ps[j + 1..], val);
    HoldConcat(ps[..j], [ps[j]], val);
    HoldConcat(ps[..j], ps[j + 1..], val);
    HoldSingle(ps[j], val);
    assert Eval(ps[j], val) == AllHold(cs, val);
    if SomeHolds(rest, val) {
      assert AllHold(d, val);
    } else {
      assert forall i :: 0 <= i < |cs| ==> Eval(d[i], val) == Eval(cs[i], val);
      assert AllHold(d, val) == AllHold(cs, val);
    }
  }

  /** Each new disjunction `Or([c] + rest)` holds exactly when `c` or one of `rest` does. */
  lemma {:induction false} DistributeMeaning(conjuncts: seq<Formula>, rest: seq<Formula>, val: Predicate -> bool)
    requires forall i :: 0 <= i < |conjuncts| ==> Positive(conjuncts[i])
    requires forall i :: 0 <= i < |rest| ==> Positive(rest[i])
    ensures forall i :: 0 <= i < |conjuncts| ==>
      && Positive(Distribute(conjuncts, rest)[i])
      && Eval(Distribute(conjuncts, rest)[i], val) == (Eval(conjuncts[i], val) || SomeHolds(rest, val))
    decreases Times(2 + MuSum(conjuncts), MuProd(rest)), 0, |conjuncts|, 0
  {
    if conjuncts != [] {
      var c := conjuncts[0];
      var o := Or([c] + rest, false);
      DistributeMeasure(conjuncts, rest);
      OrConsMeaning(c, rest, val);
      PushOrMeaning(o, val);
      DistributeMeaning(conjuncts[1..], rest, val);
      DistributeUnfold(conjuncts, rest);
      DistributeStep(conjuncts, rest, PushOr(o), Distribute(conjuncts[1..], rest), val);
    }
  }

  lemma DistributeUnfold(conjuncts: seq<Formula>, rest: seq<Formula>)
    requires conjuncts != []
    ensures Distribute(conjuncts, rest)
         == [PushOr(Or([conjuncts[0]] + rest, false))] + Distribute(conjuncts[1..], rest)
  {
  }

  /** The meaning of the first new disjunction, joined to that of the others. */
  lemma DistributeStep(conjuncts: seq<Formula>, rest: seq<Formula>, h: Formula, t: seq<Formula>, val: Predicate -> bool)
    requires conjuncts != [] && |t| == |conjuncts| - 1
    requires Positive(h) && Eval(h, val) == (Eval(conjuncts[0], val) || SomeHolds(rest, val))
    requires forall i :: 0 <= i < |t| ==>
      Positive(t[i]) && Eval(t[i], val) == (Eval(conjuncts[1..][i], val) || SomeHolds(rest, val))
    ensures forall i :: 0 <= i < |conjuncts| ==>
      && Positive(([h] + t)[i])
      && Eval(([h] + t)[i], val) == (Eval(conjuncts[i], val) || SomeHolds(rest, val))
  {
    assert forall i :: 0 < i < |conjuncts| ==> ([h] + t)[i] == t[i - 1];
    assert forall i :: 0 < i < |conjuncts| ==> conjuncts[i] == conjuncts[1..][i - 1];
  }

  lemma OrConsMeaning(c: Formula, rest: seq<Formula>, val: Predicate -> bool)
    requires Positive(c) && forall i :: 0 <= i < |rest| ==> Positive(rest[i])
    ensures Positive(Or([c] + rest, false))
    ensures Eval(Or([c] + rest, false), val) == (Eval(c, val) || SomeHolds(rest, val))
  {
    assert forall i :: 0 < i < |[c] + rest| ==> ([c] + rest)[i] == rest[i - 1];
    HoldConcat([c], rest, val);
    HoldSingle(c, val);
  }

  /** A clause: a predicate, or a disjunction of predicates. */
  predicate IsClause(f: Formula)
  {
    f.Atom? || (f.Or? && forall i :: 0 <= i < |f.children| ==> f.children[i].Atom?)
  }

  /** Conjunctive normal form: a clause, or a conjunction of clauses. */
  predicate IsCnf(f: Formula)
  {
    IsClause(f) || (f.And? && forall i :: 0 <= i < |f.children| ==> IsClause(f.children[i]))
  }

  lemma FlatNormalIsCnf(f: Formula)
    requires Flat(f) && Normal(f) && Propositional(f)
    ensures IsCnf(f)
  {
    if f.And? {
      forall i | 0 <= i < |f.children| ensures IsClause(f.children[i]) {
        var c := f.children[i];
        if c.Or? {
          assert forall j :: 0 <= j < |c.children| ==> Propositional(c.children[j]);
        }
      }
    }
  }

  /** `to_cnf`: merge, distribute, merge. On a formula made of predicates, `And` and `Or`
      the result is in conjunctive normal form. */
  function ToCnf(f: Formula): (r: Formula)
    ensures Flat(r) && Normal(r)
    ensures Propositional(f) ==> IsCnf(r)
  {
    var m := Merge(f);
    var p := PushOr(m);
    var r := Merge(p);
    PushOrNormal(m);
    MergeKeepsShape(p);
    assert Propositional(f) ==> IsCnf(r) by {
      if Propositional(f) {
        MergeKeepsShape(f);
        PushOrPropositional(m);
        FlatNormalIsCnf(r);
      }
    }
    r
  }

  /** `to_cnf` keeps the meaning of a formula whose negations sit on its predicates: under
      every valuation of the literals, the result holds exactly when the input does. */
  lemma ToCnfMeaning(f: Formula, val: Predicate -> bool)
    requires Positive(f)
    ensures Positive(ToCnf(f)) && Eval(ToCnf(f), val) == Eval(f, val)
  {
    MergeMeaning(f, val);
    PushOrMeaning(Merge(f), val);
    MergeMeaning(PushOr(Merge(f)), val);
  }
}
