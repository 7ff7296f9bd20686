/** `skolemize` and `discard_forall`: existential quantifiers are replaced by Skolem
    functions of the universals in scope, and then the universal quantifiers are dropped. */
module Skolem {
  import opened Common
  import opened Terms
  import opened Formulas
  import opened Names

  /** The names of the function terms in a term, at any depth. */
  ghost function Functors(t: Term): set<string>
  {
    match t
    case Var(_) => {}
    case Fn(n, xs) => {n} + ArgsFunctors(xs)
  }

  ghost function ArgsFunctors(xs: seq<Term>): set<string>
  {
    set i, m | 0 <= i < |xs| && m in Functors(xs[i]) :: m
  }

  /** The names of the function terms in a formula, at any depth and under quantifiers. */
  ghost function FormulaFunctors(f: Formula): set<string>
  {
    match f
    case Atom(p) => ArgsFunctors(p.args)
    case And(cs, _) => set i, m | 0 <= i < |cs| && m in FormulaFunctors(cs[i]) :: m
    case Or(cs, _) => set i, m | 0 <= i < |cs| && m in FormulaFunctors(cs[i]) :: m
    case Implies(a, b, _) => FormulaFunctors(a) + FormulaFunctors(b)
    case Iff(a, b, _) => FormulaFunctors(a) + FormulaFunctors(b)
    case ForAll(_, b, _) => FormulaFunctors(b)
    case Exists(_, b, _) => FormulaFunctors(b)
  }

  lemma ArgsFunctorsSplit(xs: seq<Term>)
    requires |xs| > 0
    ensures ArgsFunctors(xs) == Functors(xs[0]) + ArgsFunctors(xs[1..])
  {
    forall m | m in ArgsFunctors(xs) ensures m in Functors(xs[0]) + ArgsFunctors(xs[1..]) {
      var i :| 0 <= i < |xs| && m in Functors(xs[i]);
      if i > 0 { assert xs[1..][i - 1] == xs[i]; }
    }
    forall m | m in ArgsFunctors(xs[1..]) ensures m in ArgsFunctors(xs) {
      var i :| 0 <= i < |xs[1..]| && m in Functors(xs[1..][i]);
      assert xs[1..][i] == xs[i + 1];
    }
  }

  /** The function names of a term, collected at every depth. */
  function TermFunctionNames(t: Term): (r: seq<string>)
    ensures forall m :: m in r <==> m in Functors(t)
  {
    match t
    case Var(_) => []
    case Fn(n, xs) => [n] + ArgsFunctionNames(xs)
  }

  function ArgsFunctionNames(xs: seq<Term>): (r: seq<string>)
    ensures forall m :: m in r <==> m in ArgsFunctors(xs)
  {
    if xs == [] then []
    else
      ArgsFunctorsSplit(xs);
      TermFunctionNames(xs[0]) + ArgsFunctionNames(xs[1..])
  }

  /** The function names of a formula, collected at every depth: the list the Skolem names
      must avoid. */
  function FunctionNames(f: Formula): (r: seq<string>)
    ensures forall m :: m in r <==> m in FormulaFunctors(f)
  {
    match f
    case Atom(p) => ArgsFunctionNames(p.args)
    case And(cs, _) => FunctionNamesAll(cs)
    case Or(cs, _) => FunctionNamesAll(cs)
    case Implies(a, b, _) => FunctionNames(a) + FunctionNames(b)
    case Iff(a, b, _) => FunctionNames(a) + FunctionNames(b)
    case ForAll(_, b, _) => FunctionNames(b)
    case Exists(_, b, _) => FunctionNames(b)
  }

  function FunctionNamesAll(cs: seq<Formula>): (r: seq<string>)
    ensures forall m :: m in r <==> exists i :: 0 <= i < |cs| && m in FormulaFunctors(cs[i])
  {
    if cs == [] then []
    else
      var r := FunctionNames(cs[0]) + FunctionNamesAll(cs[1..]);
      assert forall i :: 0 < i < |cs| ==> cs[i] == cs[1..][i - 1];
      r
  }

  /** `get_all_of_type(statement, Function)` as written: a function term reports its own name
      without looking into its arguments, and a quantifier, having no children, reports
      nothing. */
  function ShallowFunctionNames(f: Formula): (r: seq<string>)
    ensures forall m :: m in r ==> m in FormulaFunctors(f)
  {
    match f
    case Atom(p) => Heads(p.args)
    case And(cs, _) => ShallowFunctionNamesAll(cs)
    case Or(cs, _) => ShallowFunctionNamesAll(cs)
    case Implies(a, b, _) => ShallowFunctionNames(a) + ShallowFunctionNames(b)
    case Iff(a, b, _) => ShallowFunctionNames(a) + ShallowFunctionNames(b)
    case ForAll(_, _, _) => []
    case Exists(_, _, _) => []
  }

  function ShallowFunctionNamesAll(cs: seq<Formula>): (r: seq<string>)
    ensures forall m :: m in r ==> exists i :: 0 <= i < |cs| && m in FormulaFunctors(cs[i])
  {
    if cs == [] then []
    else
      var r := ShallowFunctionNames(cs[0]) + ShallowFunctionNamesAll(cs[1..]);
      assert forall i :: 0 < i < |cs| ==> cs[i] == cs[1..][i - 1];
      r
  }

  /** The names of the arguments that are function terms, outermost only. */
  function Heads(xs: seq<Term>): (r: seq<string>)
    ensures forall m :: m in r ==> m in ArgsFunctors(xs)
  {
    if xs == [] then []
    else
      ArgsFunctorsSplit(xs);
      (if xs[0].Fn? then [xs[0].name] else []) + Heads(xs[1..])
  }

  /** What an existential variable is replaced by: the Skolem name and the universally
      quantified variables in scope at its quantifier, in quantification order. */
  datatype Entry = Entry(name: string, universals: seq<string>)

  function VarTerms(us: seq<string>): (r: seq<Term>)
    ensures |r| == |us|
    ensures forall i :: 0 <= i < |us| ==> r[i] == Var(us[i])
    ensures ArgsVars(r) == set u | u in us
    ensures ArgsFunctors(r) == {}
  {
    var r := seq(|us|, i requires 0 <= i < |us| => Var(us[i]));
    assert forall x :: x in ArgsVars(r) ==> x in us by {
      forall x | x in ArgsVars(r) ensures x in us {
        var i :| 0 <= i < |r| && x in Vars(r[i]);
      }
    }
    assert forall x :: x in us ==> x in ArgsVars(r) by {
      forall x | x in us ensures x in ArgsVars(r) {
        var i :| 0 <= i < |us| && us[i] == x;
        assert x in Vars(r[i]);
      }
    }
    r
  }

  /** The variables a substituted occurrence of something in `vs` brings in. */
  ghost function Captured(vs: set<string>, sk: map<string, Entry>): set<string>
  {
    set v, u | v in vs && v in sk && u in sk[v].universals :: u
  }

  /** The Skolem names given to the variables in `vs`. */
  ghost function SkolemNames(vs: set<string>, sk: map<string, Entry>): set<string>
  {
    set v | v in vs && v in sk :: sk[v].name
  }

  /** The variable case of `skolemize`: a variable with an entry becomes the function term
      of its entry (a constant when no universal was in scope); all else is unchanged. */
  function SkolemizeTerm(t: Term, sk: map<string, Entry>): (r: Term)
    ensures t.Var? && t.name in sk ==> r == Fn(sk[t.name].name, VarTerms(sk[t.name].universals))
    ensures t.Var? && t.name !in sk ==> r == t
    ensures t.Fn? ==> r.Fn? && r.name == t.name && |r.args| == |t.args|
    ensures Vars(t) !! sk.Keys ==> r == t
    ensures Vars(r) == (Vars(t) - sk.Keys) + Captured(Vars(t), sk)
    ensures Functors(r) == Functors(t) + SkolemNames(Vars(t), sk)
  {
    match t
    case Var(n) =>
      if n in sk then
        var r := Fn(sk[n].name, VarTerms(sk[n].universals));
        assert Captured({n}, sk) == set u | u in sk[n].universals;
        assert SkolemNames({n}, sk) == {sk[n].name};
        r
      else
        t
    case Fn(n, xs) =>
      var rs := SkolemizeArgs(xs, sk);
      assert Vars(t) !! sk.Keys ==> rs == xs by {
        assert forall i :: 0 <= i < |xs| ==> Vars(xs[i]) <= Vars(t);
      }
      ArgsPointwise(xs, rs, sk);
      Fn(n, rs)
  }

  function SkolemizeArgs(xs: seq<Term>, sk: map<string, Entry>): (r: seq<Term>)
    ensures |r| == |xs|
    ensures forall i :: 0 <= i < |xs| ==> r[i] == SkolemizeTerm(xs[i], sk)
  {
    if xs == [] then [] else [SkolemizeTerm(xs[0], sk)] + SkolemizeArgs(xs[1..], sk)
  }

  /** Lifts the variable and function-name equations of `SkolemizeTerm` to argument lists. */
  lemma ArgsPointwise(xs: seq<Term>, rs: seq<Term>, sk: map<string, Entry>)
    requires |rs| == |xs|
    requires forall i :: 0 <= i < |xs| ==> Vars(rs[i]) == (Vars(xs[i]) - sk.Keys) + Captured(Vars(xs[i]), sk)
    requires forall i :: 0 <= i < |xs| ==> Functors(rs[i]) == Functors(xs[i]) + SkolemNames(Vars(xs[i]), sk)
    ensures ArgsVars(rs) == (ArgsVars(xs) - sk.Keys) + Captured(ArgsVars(xs), sk)
    ensures ArgsFunctors(rs) == ArgsFunctors(xs) + SkolemNames(ArgsVars(xs), sk)
  {
    forall x | x in ArgsVars(rs) ensures x in (ArgsVars(xs) - sk.Keys) + Captured(ArgsVars(xs), sk) {
      var i :| 0 <= i < |rs| && x in Vars(rs[i]);
      if x !in Vars(xs[i]) - sk.Keys {
        var v, u :| v in Vars(xs[i]) && v in sk && u in sk[v].universals && x == u;
        assert v in ArgsVars(xs);
      }
    }
    forall x | x in (ArgsVars(xs) - sk.Keys) + Captured(ArgsVars(xs), sk) ensures x in ArgsVars(rs) {
      if x in ArgsVars(xs) - sk.Keys {
        var i :| 0 <= i < |xs| && x in Vars(xs[i]);
        assert x in Vars(rs[i]);
      } else {
        var v, u :| v in ArgsVars(xs) && v in sk && u in sk[v].universals && x == u;
        var i :| 0 <= i < |xs| && v in Vars(xs[i]);
        assert x in Captured(Vars(xs[i]), sk);
        assert x in Vars(rs[i]);
      }
    }
    forall m | m in ArgsFunctors(rs) ensures m in ArgsFunctors(xs) + SkolemNames(ArgsVars(xs), sk) {
      var i :| 0 <= i < |rs| && m in Functors(rs[i]);
      if m !in Functors(xs[i]) {
        var v :| v in Vars(xs[i]) && v in sk && m == sk[v].name;
        assert v in ArgsVars(xs);
      }
    }
    forall m | m in ArgsFunctors(xs) + SkolemNames(ArgsVars(xs), sk) ensures m in ArgsFunctors(rs) {
      if m in ArgsFunctors(xs) {
        var i :| 0 <= i < |xs| && m in Functors(xs[i]);
        assert m in Functors(rs[i]);
      } else {
        var v :| v in ArgsVars(xs) && v in sk && m == sk[v].name;
        var i :| 0 <= i < |xs| && v in Vars(xs[i]);
        assert m in SkolemNames(Vars(xs[i]), sk);
        assert m in Functors(rs[i]);
      }
    }
  }

  /** `out` extends `used`, and every name appended differs from every other name in `out`. */
  predicate FreshSuffix(used: seq<string>, out: seq<string>)
  {
    && |used| <= |out|
    && out[..|used|] == used
    && forall i, j :: |used| <= i < |out| && 0 <= j < |out| && i != j ==> out[i] != out[j]
  }

  lemma FreshSuffixStep(used: seq<string>, c: string)
    requires c !in used
    ensures FreshSuffix(used, used + [c])
  {
    assert (used + [c])[..|used|] == used;
  }

  lemma FreshSuffixTrans(a: seq<string>, b: seq<string>, c: seq<string>)
    requires FreshSuffix(a, b) && FreshSuffix(b, c)
    ensures FreshSuffix(a, c)
  {
    assert c[..|a|] == b[..|b|][..|a|] by {
      assert c[..|b|] == b;
    }
    forall i, j | |a| <= i < |c| && 0 <= j < |c| && i != j
      ensures c[i] != c[j]
    {
      assert c[..|b|] == b;
      if i < |b| && j < |b| {
        assert c[i] == b[i] && c[j] == b[j];
      }
    }
  }

  lemma FreshSuffixRefl(used: seq<string>)
    ensures FreshSuffix(used, used)
  {
    assert used[..|used|] == used;
  }

  /** The number of existential quantifiers in a formula. */
  function ExistsCount(f: Formula): nat
  {
    match f
    case Atom(_) => 0
    case And(cs, _) => ExistsCountAll(cs)
    case Or(cs, _) => ExistsCountAll(cs)
    case Implies(a, b, _) => ExistsCount(a) + ExistsCount(b)
    case Iff(a, b, _) => ExistsCount(a) + ExistsCount(b)
    case ForAll(_, b, _) => ExistsCount(b)
    case Exists(_, b, _) => 1 + ExistsCount(b)
  }

  function ExistsCountAll(cs: seq<Formula>): nat
  {
    if cs == [] then 0 else ExistsCount(cs[0]) + ExistsCountAll(cs[1..])
  }

  /** The names bound by universal quantifiers, in left-to-right pre-order. */
  function UniversalBinders(f: Formula): seq<string>
  {
    match f
    case Atom(_) => []
    case And(cs, _) => UniversalBindersAll(cs)
    case Or(cs, _) => UniversalBindersAll(cs)
    case Implies(a, b, _) => UniversalBinders(a) + UniversalBinders(b)
    case Iff(a, b, _) => UniversalBinders(a) + UniversalBinders(b)
    case ForAll(v, b, _) => [v] + UniversalBinders(b)
    case Exists(_, b, _) => UniversalBinders(b)
  }

  function UniversalBindersAll(cs: seq<Formula>): seq<string>
  {
    if cs == [] then [] else UniversalBinders(cs[0]) + UniversalBindersAll(cs[1..])
  }

  /** `skolemize` with its state made explicit. `sk` maps each existential variable met on
      the current path to its entry, `universals` lists the universal variables on the
      current path, and `used` is every function name taken so far, threaded from sibling to
      sibling. Each existential takes a fresh name and disappears; universals stay. */
  function SkolemizeWith(f: Formula, sk: map<string, Entry>, universals: seq<string>, used: seq<string>)
    : (r: (Formula, seq<string>))
    ensures Lacks(r.0, KExists)
    ensures FreshSuffix(used, r.1) && |r.1| == |used| + ExistsCount(f)
    ensures UniversalBinders(r.0) == UniversalBinders(f)
    decreases Size(f), 1
  {
    match f
    case Atom(p) =>
      FreshSuffixRefl(used);
      (Atom(SkolemizePredicate(p, sk)), used)
    case And(cs, n) =>
      var rs := SkolemizeAll(cs, sk, universals, used);
      (And(rs.0, n), rs.1)
    case Or(cs, n) =>
      var rs := SkolemizeAll(cs, sk, universals, used);
      (Or(rs.0, n), rs.1)
    case Implies(a, b, n) =>
      var rs := SkolemizePair(a, b, sk, universals, used);
      (Implies(rs.0, rs.1, n), rs.2)
    case Iff(a, b, n) =>
      var rs := SkolemizePair(a, b, sk, universals, used);
      (Iff(rs.0, rs.1, n), rs.2)
    case ForAll(v, b, n) =>
      var rb := SkolemizeWith(b, sk, universals + [v], used);
      (ForAll(v, rb.0, n), rb.1)
    case Exists(v, b, _) => SkolemizeExists(v, b, sk, universals, used)
  }

  /** A predicate's arguments with every variable that has an entry replaced. */
  function SkolemizePredicate(p: Predicate, sk: map<string, Entry>): (r: Predicate)
    ensures r.name == p.name && r.negated == p.negated && |r.args| == |p.args|
    ensures ArgsVars(p.args) !! sk.Keys ==> r == p
  {
    var xs := SkolemizeArgs(p.args, sk);
    assert ArgsVars(p.args) !! sk.Keys ==> xs == p.args by {
      assert forall i :: 0 <= i < |p.args| ==> Vars(p.args[i]) <= ArgsVars(p.args);
    }
    p.(args := xs)
  }

  /** The existential case: a fresh name, recorded with the universals now in scope, and the
      quantifier replaced by its processed body. */
  function SkolemizeExists(v: string, b: Formula, sk: map<string, Entry>, universals: seq<string>, used: seq<string>)
    : (r: (Formula, seq<string>))
    ensures Lacks(r.0, KExists)
    ensures FreshSuffix(used, r.1) && |r.1| == |used| + 1 + ExistsCount(b)
    ensures UniversalBinders(r.0) == UniversalBinders(b)
    decreases Size(b), 2
  {
    var c := NewConstant(used);
    FreshSuffixStep(used, c);
    var rb := SkolemizeWith(b, sk[v := Entry(c, universals)], universals, used + [c]);
    FreshSuffixTrans(used, used + [c], rb.1);
    rb
  }

  function SkolemizePair(a: Formula, b: Formula, sk: map<string, Entry>, universals: seq<string>, used: seq<string>)
    : (r: (Formula, Formula, seq<string>))
    ensures Lacks(r.0, KExists) && Lacks(r.1, KExists)
    ensures FreshSuffix(used, r.2) && |r.2| == |used| + ExistsCount(a) + ExistsCount(b)
    ensures UniversalBinders(r.0) == UniversalBinders(a) && UniversalBinders(r.1) == UniversalBinders(b)
    decreases Size(a) + Size(b), 2
  {
    var ra := SkolemizeWith(a, sk, universals, used);
    var rb := SkolemizeWith(b, sk, universals, ra.1);
    FreshSuffixTrans(used, ra.1, rb.1);
    (ra.0, rb.0, rb.1)
  }

  function SkolemizeAll(cs: seq<Formula>, sk: map<string, Entry>, universals: seq<string>, used: seq<string>)
    : (r: (seq<Formula>, seq<string>))
    ensures |r.0| == |cs|
    ensures forall i :: 0 <= i < |cs| ==> Lacks(r.0[i], KExists)
    ensures FreshSuffix(used, r.1) && |r.1| == |used| + ExistsCountAll(cs)
    ensures UniversalBindersAll(r.0) == UniversalBindersAll(cs)
    decreases SizeAll(cs), 3
  {
    if cs == [] then
      FreshSuffixRefl(used);
      ([], used)
    else
      var h := SkolemizeWith(cs[0], sk, universals, used);
      var t := SkolemizeAll(cs[1..], sk, universals, h.1);
      FreshSuffixTrans(used, h.1, t.1);
      var out := [h.0] + t.0;
      assert out[1..] == t.0;
      assert forall i :: 0 < i < |cs| ==> cs[i] == cs[1..][i - 1] && out[i] == t.0[i - 1];
      (out, t.1)
  }

  /** `f` with every occurrence of the variable `v` in a predicate argument replaced by `t`,
      at any depth, quantifiers included. */
  function ReplaceInFormula(f: Formula, v: string, t: Term): Formula
  {
    match f
    case Atom(p) => Atom(p.(args := seq(|p.args|, i requires 0 <= i < |p.args| => Replace(p.args[i], v, t))))
    case And(cs, n) => And(seq(|cs|, i requires 0 <= i < |cs| => ReplaceInFormula(cs[i], v, t)), n)
    case Or(cs, n) => Or(seq(|cs|, i requires 0 <= i < |cs| => ReplaceInFormula(cs[i], v, t)), n)
    case Implies(a, b, n) => Implies(ReplaceInFormula(a, v, t), ReplaceInFormula(b, v, t), n)
    case Iff(a, b, n) => Iff(ReplaceInFormula(a, v, t), ReplaceInFormula(b, v, t), n)
    case ForAll(w, b, n) => ForAll(w, ReplaceInFormula(b, v, t), n)
    case Exists(w, b, n) => Exists(w, ReplaceInFormula(b, v, t), n)
  }

  function ReplaceInAll(cs: seq<Formula>, v: string, t: Term): seq<Formula>
  {
    seq(|cs|, i requires 0 <= i < |cs| => ReplaceInFormula(cs[i], v, t))
  }

  /** No existential quantifier of `f` binds a name of `names`. */
  ghost predicate ExistsAvoid(f: Formula, names: set<string>)
  {
    match f
    case Atom(_) => true
    case And(cs, _) => forall i :: 0 <= i < |cs| ==> ExistsAvoid(cs[i], names)
    case Or(cs, _) => forall i :: 0 <= i < |cs| ==> ExistsAvoid(cs[i], names)
    case Implies(a, b, _) => ExistsAvoid(a, names) && ExistsAvoid(b, names)
    case Iff(a, b, _) => ExistsAvoid(a, names) && ExistsAvoid(b, names)
    case ForAll(_, b, _) => ExistsAvoid(b, names)
    case Exists(w, b, _) => w !in names && ExistsAvoid(b, names)
  }

  /** The Skolem term of an entry whose universals await no replacement themselves. */
  lemma {:induction false} SkolemizeTermReplace(t: Term, sk: map<string, Entry>, v: string, e: Entry)
    requires forall u :: u in e.universals ==> u !in sk
    ensures SkolemizeTerm(t, sk[v := e]) == SkolemizeTerm(Replace(t, v, Fn(e.name, VarTerms(e.universals))), sk)
  {
    var st := Fn(e.name, VarTerms(e.universals));
    match t
    case Var(n) =>
      if n == v {
        var xs := VarTerms(e.universals);
        assert SkolemizeArgs(xs, sk) == xs;
      }
    case Fn(n, xs) =>
      var ys := seq(|xs|, i requires 0 <= i < |xs| => Replace(xs[i], v, st));
      forall i | 0 <= i < |xs| ensures SkolemizeTerm(xs[i], sk[v := e]) == SkolemizeTerm(ys[i], sk) {
        SkolemizeTermReplace(xs[i], sk, v, e);
      }
      assert SkolemizeArgs(xs, sk[v := e]) == SkolemizeArgs(ys, sk);
  }

  /** Processing `f` with an entry for `v` is processing `f` with `v` replaced by the entry's
      Skolem term beforehand: nothing else in the walk depends on the entry. This needs the
      entry's universals to await no replacement and no existential below to rebind `v` or
      one of those universals, which the renaming apart of the quantifiers ensures. */
  lemma {:induction false} SkolemizeReplace(f: Formula, sk: map<string, Entry>, us: seq<string>, used: seq<string>, v: string, e: Entry)
    requires forall u :: u in e.universals ==> u !in sk
    requires ExistsAvoid(f, {v} + set u | u in e.universals)
    ensures SkolemizeWith(f, sk[v := e], us, used)
         == SkolemizeWith(ReplaceInFormula(f, v, Fn(e.name, VarTerms(e.universals))), sk, us, used)
    decreases Size(f), 1
  {
    var st := Fn(e.name, VarTerms(e.universals));
    match f
    case Atom(p) => SkolemizePredicateReplace(p, sk, v, e);
    case And(cs, n) => SkolemizeAllReplace(cs, sk, us, used, v, e);
    case Or(cs, n) => SkolemizeAllReplace(cs, sk, us, used, v, e);
    case Implies(a, b, n) =>
      SkolemizeReplace(a, sk, us, used, v, e);
      SkolemizeReplace(b, sk, us, SkolemizeWith(a, sk[v := e], us, used).1, v, e);
    case Iff(a, b, n) =>
      SkolemizeReplace(a, sk, us, used, v, e);
      SkolemizeReplace(b, sk, us, SkolemizeWith(a, sk[v := e], us, used).1, v, e);
    case ForAll(w, b, n) => SkolemizeReplace(b, sk, us + [w], used, v, e);
    case Exists(w, b, n) =>
      var c := NewConstant(used);
      var e' := Entry(c, us);
      MapSwap(sk, v, e, w, e');
      SkolemizeReplace(b, sk[w := e'], us, used + [c], v, e);
      assert ReplaceInFormula(f, v, st) == Exists(w, ReplaceInFormula(b, v, st), n);
  }

  lemma MapSwap(sk: map<string, Entry>, v: string, e: Entry, w: string, e': Entry)
    requires v != w
    ensures sk[v := e][w := e'] == sk[w := e'][v := e]
  {
  }

  lemma SkolemizePredicateReplace(p: Predicate, sk: map<string, Entry>, v: string, e: Entry)
    requires forall u :: u in e.universals ==> u !in sk
    ensures var st := Fn(e.name, VarTerms(e.universals));
            SkolemizePredicate(p, sk[v := e])
            == SkolemizePredicate(p.(args := seq(|p.args|, i requires 0 <= i < |p.args| => Replace(p.args[i], v, st))), sk)
  {
    var st := Fn(e.name, VarTerms(e.universals));
    var ys := seq(|p.args|, i requires 0 <= i < |p.args| => Replace(p.args[i], v, st));
    forall i | 0 <= i < |p.args| ensures SkolemizeTerm(p.args[i], sk[v := e]) == SkolemizeTerm(ys[i], sk) {
      SkolemizeTermReplace(p.args[i], sk, v, e);
    }
    assert SkolemizeArgs(p.args, sk[v := e]) == SkolemizeArgs(ys, sk);
  }

  lemma {:induction false} SkolemizeAllReplace(cs: seq<Formula>, sk: map<string, Entry>, us: seq<string>, used: seq<string>, v: string, e: Entry)
    requires forall u :: u in e.universals ==> u !in sk
    requires forall i :: 0 <= i < |cs| ==> ExistsAvoid(cs[i], {v} + set u | u in e.universals)
    ensures SkolemizeAll(cs, sk[v := e], us, used)
         == SkolemizeAll(ReplaceInAll(cs, v, Fn(e.name, VarTerms(e.universals))), sk, us, used)
    decreases SizeAll(cs), 3
  {
    var st := Fn(e.name, VarTerms(e.universals));
    if cs != [] {
      var ds := ReplaceInAll(cs, v, st);
      assert ds[0] == ReplaceInFormula(cs[0], v, st);
      assert ds[1..] == ReplaceInAll(cs[1..], v, st);
      SkolemizeReplace(cs[0], sk, us, used, v, e);
      SkolemizeAllReplace(cs[1..], sk, us, SkolemizeWith(cs[0], sk[v := e], us, used).1, v, e);
    }
  }

  /** The existential case, stated as what it does to the formula: `there is v with b`
      becomes `b` with every occurrence of `v` replaced by the Skolem term `c(us)`, where `c`
      is the next fresh name and `us` the universals in scope, and `c` is taken. */
  lemma SkolemizeExistsReplaces(v: string, b: Formula, n: bool, sk: map<string, Entry>, us: seq<string>, used: seq<string>)
    requires forall u :: u in us ==> u !in sk
    requires ExistsAvoid(b, {v} + set u | u in us)
    ensures SkolemizeWith(Exists(v, b, n), sk, us, used)
         == SkolemizeWith(ReplaceInFormula(b, v, Fn(NewConstant(used), VarTerms(us))), sk, us, used + [NewConstant(used)])
  {
    var c := NewConstant(used);
    SkolemizeExistsUnfold(Exists(v, b, n), sk, us, used);
    SkolemizeExistsBody(v, b, sk, us, used);
    SkolemizeReplace(b, sk, us, used + [c], v, Entry(c, us));
  }

  /** One step of `SkolemizeWith` on an existential node. */
  lemma SkolemizeExistsUnfold(f: Formula, sk: map<string, Entry>, us: seq<string>, used: seq<string>)
    requires f.Exists?
    ensures SkolemizeWith(f, sk, us, used) == SkolemizeExists(f.variable, f.body, sk, us, used)
  {
  }

  /** One step of `SkolemizeExists`: the body is skolemized with `v` mapped to a fresh name. */
  lemma SkolemizeExistsBody(v: string, b: Formula, sk: map<string, Entry>, us: seq<string>, used: seq<string>)
    ensures SkolemizeExists(v, b, sk, us, used)
         == SkolemizeWith(b, sk[v := Entry(NewConstant(used), us)], us, used + [NewConstant(used)])
  {
  }

  /** Skolemization removes existentials and introduces no node kind that was absent. */
  lemma {:induction false} SkolemizeKeepsKinds(f: Formula, sk: map<string, Entry>, universals: seq<string>, used: seq<string>)
    ensures forall k :: Lacks(f, k) ==> Lacks(SkolemizeWith(f, sk, universals, used).0, k)
    decreases Size(f), 1
  {
    match f
    case Atom(p) =>
    case And(cs, n) => SkolemizeAllKeepsKinds(cs, sk, universals, used);
    case Or(cs, n) => SkolemizeAllKeepsKinds(cs, sk, universals, used);
    case Implies(a, b, n) =>
      SkolemizeKeepsKinds(a, sk, universals, used);
      SkolemizeKeepsKinds(b, sk, universals, SkolemizeWith(a, sk, universals, used).1);
    case Iff(a, b, n) =>
      SkolemizeKeepsKinds(a, sk, universals, used);
      SkolemizeKeepsKinds(b, sk, universals, SkolemizeWith(a, sk, universals, used).1);
    case ForAll(v, b, n) => SkolemizeKeepsKinds(b, sk, universals + [v], used);
    case Exists(v, b, _) =>
      var c := NewConstant(used);
      SkolemizeKeepsKinds(b, sk[v := Entry(c, universals)], universals, used + [c]);
  }

  lemma {:induction false} SkolemizeAllKeepsKinds(cs: seq<Formula>, sk: map<string, Entry>, universals: seq<string>, used: seq<string>)
    ensures forall k, i :: 0 <= i < |cs| && Lacks(cs[i], k) ==> Lacks(SkolemizeAll(cs, sk, universals, used).0[i], k)
    decreases SizeAll(cs), 3
  {
    if cs != [] {
      var h := SkolemizeWith(cs[0], sk, universals, used);
      SkolemizeKeepsKinds(cs[0], sk, universals, used);
      SkolemizeAllKeepsKinds(cs[1..], sk, universals, h.1);
      assert forall i :: 0 < i < |cs| ==> cs[i] == cs[1..][i - 1];
    }
  }

  /** A formula with no existential and no variable awaiting replacement comes back as it
      is, and takes no name. */
  lemma {:induction false} SkolemizeUnchanged(f: Formula, sk: map<string, Entry>, universals: seq<string>, used: seq<string>)
    requires Lacks(f, KExists) && FormulaVars(f) !! sk.Keys
    ensures SkolemizeWith(f, sk, universals, used) == (f, used)
    decreases Size(f), 1
  {
    match f
    case Atom(p) =>
    case And(cs, n) => SkolemizeAllUnchanged(cs, sk, universals, used);
    case Or(cs, n) => SkolemizeAllUnchanged(cs, sk, universals, used);
    case Implies(a, b, n) =>
      SkolemizeUnchanged(a, sk, universals, used);
      SkolemizeUnchanged(b, sk, universals, used);
    case Iff(a, b, n) =>
      SkolemizeUnchanged(a, sk, universals, used);
      SkolemizeUnchanged(b, sk, universals, used);
    case ForAll(v, b, n) => SkolemizeUnchanged(b, sk, universals + [v], used);
  }

  lemma {:induction false} SkolemizeAllUnchanged(cs: seq<Formula>, sk: map<string, Entry>, universals: seq<string>, used: seq<string>)
    requires forall i :: 0 <= i < |cs| ==> Lacks(cs[i], KExists) && FormulaVars(cs[i]) !! sk.Keys
    ensures SkolemizeAll(cs, sk, universals, used) == (cs, used)
    decreases SizeAll(cs), 3
  {
    if cs != [] {
      SkolemizeUnchanged(cs[0], sk, universals, used);
      assert forall i :: 0 < i < |cs| ==> cs[i] == cs[1..][i - 1];
      SkolemizeAllUnchanged(cs[1..], sk, universals, used);
      assert [cs[0]] + cs[1..] == cs;
    }
  }

  /** `skolemize` from the top: no existential met yet, no universal in scope, and the
      names to avoid are the formula's function names at every depth. */
  function Skolemize(f: Formula): (r: Formula)
    ensures Lacks(r, KExists)
    ensures forall k :: Lacks(f, k) ==> Lacks(r, k)
    ensures UniversalBinders(r) == UniversalBinders(f)
    ensures Lacks(f, KExists) ==> r == f
  {
    SkolemizeKeepsKinds(f, map[], [], FunctionNames(f));
    var r := SkolemizeWith(f, map[], [], FunctionNames(f)).0;
    assert Lacks(f, KExists) ==> r == f by {
      if Lacks(f, KExists) {
        SkolemizeUnchanged(f, map[], [], FunctionNames(f));
      }
    }
    r
  }

  /** The names `Skolemize` introduces: one per existential quantifier, pairwise distinct,
      and none of them the name of a function already in the formula. */
  lemma SkolemNamesFresh(f: Formula)
    ensures var used := FunctionNames(f);
            var out := SkolemizeWith(f, map[], [], used).1;
            && |out| == |used| + ExistsCount(f)
            && (forall i :: |used| <= i < |out| ==> out[i] !in FormulaFunctors(f))
            && (forall i, j :: |used| <= i < j < |out| ==> out[i] != out[j])
  {
  }

  /** `skolemize` as written: the names to avoid are those `get_all_of_type` collects, which
      miss nested function terms and everything under a quantifier. */
  function SkolemizeAsWritten(f: Formula): (r: Formula)
    ensures Lacks(r, KExists)
    ensures forall k :: Lacks(f, k) ==> Lacks(r, k)
  {
    SkolemizeKeepsKinds(f, map[], [], ShallowFunctionNames(f));
    SkolemizeWith(f, map[], [], ShallowFunctionNames(f)).0
  }

  /** No universal quantifier is the direct body of another universal quantifier. */
  predicate NoStackedForAll(f: Formula)
  {
    match f
    case Atom(_) => true
    case And(cs, _) => forall i :: 0 <= i < |cs| ==> NoStackedForAll(cs[i])
    case Or(cs, _) => forall i :: 0 <= i < |cs| ==> NoStackedForAll(cs[i])
    case Implies(a, b, _) => NoStackedForAll(a) && NoStackedForAll(b)
    case Iff(a, b, _) => NoStackedForAll(a) && NoStackedForAll(b)
    case ForAll(_, b, _) => !b.ForAll? && NoStackedForAll(b)
    case Exists(_, b, _) => NoStackedForAll(b)
  }

  /** `discard_forall` as written: a universal is replaced by its body, and the walk then
      continues only into nodes with children, so a quantifier that is the body of a
      universal, and everything under it, is left as it is. */
  function DiscardForAllAsWritten(f: Formula): (r: Formula)
    ensures f.ForAll? ==> KindOf(r) == KindOf(f.body)
    ensures !f.ForAll? ==> KindOf(r) == KindOf(f)
    ensures Atoms(r) == Atoms(f)
  {
    var g := if f.ForAll? then f.body else f;
    match g
    case And(cs, n) => And(DiscardForAllAsWrittenAll(cs), n)
    case Or(cs, n) => Or(DiscardForAllAsWrittenAll(cs), n)
    case Implies(a, b, n) => Implies(DiscardForAllAsWritten(a), DiscardForAllAsWritten(b), n)
    case Iff(a, b, n) => Iff(DiscardForAllAsWritten(a), DiscardForAllAsWritten(b), n)
    case _ => g
  }

  function DiscardForAllAsWrittenAll(cs: seq<Formula>): (r: seq<Formula>)
    ensures |r| == |cs|
    ensures forall i :: 0 <= i < |cs| ==> r[i] == DiscardForAllAsWritten(cs[i])
  {
    if cs == [] then [] else [DiscardForAllAsWritten(cs[0])] + DiscardForAllAsWrittenAll(cs[1..])
  }

  /** `discard_forall` as evidently intended: every universal is replaced by its body, at
      every depth, and every other node keeps its kind. */
  function DiscardForAll(f: Formula): (r: Formula)
    ensures Lacks(r, KForAll)
    ensures forall k :: Lacks(f, k) ==> Lacks(r, k)
    ensures Lacks(f, KForAll) ==> r == f
    ensures !f.ForAll? ==> KindOf(r) == KindOf(f)
    ensures Atoms(r) == Atoms(f)
  {
    match f
    case Atom(_) => f
    case And(cs, n) => And(DiscardForAllAll(cs), n)
    case Or(cs, n) => Or(DiscardForAllAll(cs), n)
    case Implies(a, b, n) => Implies(DiscardForAll(a), DiscardForAll(b), n)
    case Iff(a, b, n) => Iff(DiscardForAll(a), DiscardForAll(b), n)
    case ForAll(_, b, _) => DiscardForAll(b)
    case Exists(v, b, n) => Exists(v, DiscardForAll(b), n)
  }

  function DiscardForAllAll(cs: seq<Formula>): (r: seq<Formula>)
    ensures |r| == |cs|
    ensures forall i :: 0 <= i < |cs| ==> r[i] == DiscardForAll(cs[i])
  {
    if cs == [] then [] else [DiscardForAll(cs[0])] + DiscardForAllAll(cs[1..])
  }

  /** On the formulas `skolemize` produces, the written pass agrees with the intended one
      exactly when no universal is stacked directly on another. */
  lemma {:induction false} DiscardForAllAgrees(f: Formula)
    requires Lacks(f, KExists) && NoStackedForAll(f)
    ensures DiscardForAllAsWritten(f) == DiscardForAll(f)
  {
    match f
    case Atom(_) =>
    case And(cs, n) =>
      forall i | 0 <= i < |cs| ensures DiscardForAllAsWritten(cs[i]) == DiscardForAll(cs[i]) {
        DiscardForAllAgrees(cs[i]);
      }
    case Or(cs, n) =>
      forall i | 0 <= i < |cs| ensures DiscardForAllAsWritten(cs[i]) == DiscardForAll(cs[i]) {
        DiscardForAllAgrees(cs[i]);
      }
    case Implies(a, b, _) =>
      DiscardForAllAgrees(a);
      DiscardForAllAgrees(b);
    case Iff(a, b, _) =>
      DiscardForAllAgrees(a);
      DiscardForAllAgrees(b);
    case ForAll(_, b, _) =>
      match b
      case Atom(_) =>
      case And(cs, _) =>
        forall i | 0 <= i < |cs| ensures DiscardForAllAsWritten(cs[i]) == DiscardForAll(cs[i]) {
          DiscardForAllAgrees(cs[i]);
        }
      case Or(cs, _) =>
        forall i | 0 <= i < |cs| ensures DiscardForAllAsWritten(cs[i]) == DiscardForAll(cs[i]) {
          DiscardForAllAgrees(cs[i]);
        }
      case Implies(a, c, _) =>
        DiscardForAllAgrees(a);
        DiscardForAllAgrees(c);
      case Iff(a, c, _) =>
        DiscardForAllAgrees(a);
        DiscardForAllAgrees(c);
  }
}
