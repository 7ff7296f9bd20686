/** Syntactic unification with an occurs-check: `unify`, `unify_variable`, `substitute`
    and the `Substitution` binding list. */
module Unification {
  import opened Common
  import opened Terms

  /** A `Substitution(variable, replacement)` entry of a most general unifier. */
  datatype Binding = Binding(variable: string, replacement: Term)

  /** An MGU is the ordered list of its bindings. */
  type Subst = seq<Binding>

  /** The variables that have a binding. */
  ghost function Dom(mu: Subst): set<string>
  {
    set i | 0 <= i < |mu| :: mu[i].variable
  }

  /** The variables mentioned by the replacements. */
  ghost function RangeVars(mu: Subst): set<string>
  {
    set i, x | 0 <= i < |mu| && x in Vars(mu[i].replacement) :: x
  }

  ghost function AllVars(mu: Subst): set<string>
  {
    Dom(mu) + RangeVars(mu)
  }

  /** The shape every binding list built by `unify` has: no variable is bound twice, and a
      replacement never mentions its own variable or a variable bound before it (later
      bindings may still refine it, since new bindings are appended, not composed). */
  ghost predicate WellFormed(mu: Subst)
  {
    && (forall i, j :: 0 <= i < j < |mu| ==> mu[i].variable != mu[j].variable)
    && (forall i, j :: 0 <= j <= i < |mu| ==> mu[j].variable !in Vars(mu[i].replacement))
  }

  /** `b` starts with all of `a`, unchanged. */
  ghost predicate Extends(a: Subst, b: Subst)
  {
    |a| <= |b| && b[..|a|] == a
  }

  /** The position of the first binding of `v` at or after `k`, or `|mu|` if there is none. */
  function IndexOf(mu: Subst, k: nat, v: string): (r: nat)
    requires k <= |mu|
    ensures k <= r <= |mu|
    ensures r < |mu| ==> mu[r].variable == v
    ensures forall j :: k <= j < r ==> mu[j].variable != v
    decreases |mu| - k
  {
    if k == |mu| then k
    else if mu[k].variable == v then k
    else IndexOf(mu, k + 1, v)
  }

  /** How many steps substituting into `t` can take when only bindings from `k` on count:
      a bound variable weighs one more than its replacement. This is the termination
      measure of `Substitute` and `Unify`. */
  ghost function RankFrom(mu: Subst, k: nat, t: Term): nat
    requires k <= |mu|
    decreases |mu| - k, t
  {
    match t
    case Var(v) =>
      var j := IndexOf(mu, k, v);
      if j < |mu| then 1 + RankFrom(mu, j + 1, mu[j].replacement) else 1
    case Fn(_, xs) => 1 + ArgsRankFrom(mu, k, xs)
  }

  ghost function ArgsRankFrom(mu: Subst, k: nat, ts: seq<Term>): nat
    requires k <= |mu|
    decreases |mu| - k, ts
  {
    if |ts| == 0 then 0 else RankFrom(mu, k, ts[0]) + ArgsRankFrom(mu, k, ts[1..])
  }

  ghost function Rank(mu: Subst, t: Term): nat
  {
    RankFrom(mu, 0, t)
  }

  ghost function ArgsRank(mu: Subst, ts: seq<Term>): nat
  {
    ArgsRankFrom(mu, 0, ts)
  }

  lemma {:induction false} IndexOfSkip(mu: Subst, lo: nat, hi: nat, v: string)
    requires lo <= hi <= |mu|
    requires forall j :: lo <= j < hi ==> mu[j].variable != v
    ensures IndexOf(mu, lo, v) == IndexOf(mu, hi, v)
    decreases hi - lo
  {
    if lo < hi {
      IndexOfSkip(mu, lo + 1, hi, v);
    }
  }

  /** Bindings of variables that do not occur in `t` do not change its rank. */
  lemma {:induction false} RankSkip(mu: Subst, lo: nat, hi: nat, t: Term)
    requires lo <= hi <= |mu|
    requires forall j :: lo <= j < hi ==> mu[j].variable !in Vars(t)
    ensures RankFrom(mu, lo, t) == RankFrom(mu, hi, t)
    decreases t, 1
  {
    match t
    case Var(v) =>
      IndexOfSkip(mu, lo, hi, v);
    case Fn(_, xs) =>
      ArgsRankSkip(mu, lo, hi, xs);
  }

  lemma {:induction false} ArgsRankSkip(mu: Subst, lo: nat, hi: nat, ts: seq<Term>)
    requires lo <= hi <= |mu|
    requires forall j :: lo <= j < hi ==> mu[j].variable !in ArgsVars(ts)
    ensures ArgsRankFrom(mu, lo, ts) == ArgsRankFrom(mu, hi, ts)
    decreases ts, 0
  {
    if |ts| > 0 {
      assert forall x :: x in Vars(ts[0]) ==> x in ArgsVars(ts);
      RankSkip(mu, lo, hi, ts[0]);
      assert forall x :: x in ArgsVars(ts[1..]) ==> x in ArgsVars(ts) by {
        forall x | x in ArgsVars(ts[1..]) ensures x in ArgsVars(ts) {
          var i :| 0 <= i < |ts[1..]| && x in Vars(ts[1..][i]);
          assert ts[1..][i] == ts[i + 1];
        }
      }
      ArgsRankSkip(mu, lo, hi, ts[1..]);
    }
  }

  /** In a well-formed list a bound variable outranks its replacement by exactly one. */
  lemma RankOfBound(mu: Subst, k: nat)
    requires WellFormed(mu) && k < |mu|
    ensures Rank(mu, Var(mu[k].variable)) == 1 + Rank(mu, mu[k].replacement)
  {
    assert IndexOf(mu, 0, mu[k].variable) == k;
    RankSkip(mu, 0, k + 1, mu[k].replacement);
  }

  /** `substitute(mu, e)`: every binding whose variable occurs in the expression, taken in
      list order and checked against the expression as it is at that moment, replaces a
      variable expression by its replacement, or re-substitutes every child of a nested one.
      The result mentions no bound variable and no variable that was not already in `e` or
      in a replacement; an expression without bound variables comes back unchanged. */
  function Substitute(mu: Subst, e: Term): (r: Term)
    requires WellFormed(mu)
    ensures Rank(mu, r) <= Rank(mu, e)
    ensures Vars(r) !! Dom(mu)
    ensures Vars(r) <= Vars(e) + RangeVars(mu)
    ensures Vars(e) !! Dom(mu) ==> r == e
    decreases Rank(mu, e), |mu| + 1
  {
    SubstituteFrom(mu, 0, e)
  }

  /** The loop of `substitute` from the binding at position `k` on. */
  function SubstituteFrom(mu: Subst, k: nat, e: Term): (r: Term)
    requires WellFormed(mu) && k <= |mu|
    ensures Rank(mu, r) <= Rank(mu, e)
    ensures forall j :: k <= j < |mu| ==> mu[j].variable !in Vars(r)
    ensures forall j :: 0 <= j < k && mu[j].variable in Vars(r) ==> mu[j].variable in Vars(e)
    ensures Vars(r) <= Vars(e) + RangeVars(mu)
    ensures (forall j :: k <= j < |mu| ==> mu[j].variable !in Vars(e)) ==> r == e
    decreases Rank(mu, e), |mu| - k
  {
    if k == |mu| then e
    else
      OccursIffInVars(mu[k].variable, e);
      if Occurs(mu[k].variable, e) then
        if e.Var? then
          RankOfBound(mu, k);
          SubstituteFrom(mu, k + 1, mu[k].replacement)
        else
          var xs := SubstituteArgs(mu, e.args);
          assert Vars(Fn(e.name, xs)) <= Vars(e) + RangeVars(mu) by {
            forall x | x in Vars(Fn(e.name, xs)) ensures x in Vars(e) + RangeVars(mu) {
              assert x in ArgsVars(xs);
              var i :| 0 <= i < |xs| && x in Vars(xs[i]);
              assert x in Vars(e.args[i]) + RangeVars(mu);
            }
          }
          SubstituteFrom(mu, k + 1, Fn(e.name, xs))
      else
        SubstituteFrom(mu, k + 1, e)
  }

  /** `[substitute(mu, e) for e in expression.children]`. */
  function SubstituteArgs(mu: Subst, ts: seq<Term>): (r: seq<Term>)
    requires WellFormed(mu)
    ensures |r| == |ts|
    ensures ArgsRank(mu, r) <= ArgsRank(mu, ts)
    ensures forall i :: 0 <= i < |r| ==> Vars(r[i]) !! Dom(mu)
    ensures forall i :: 0 <= i < |r| ==> Vars(r[i]) <= Vars(ts[i]) + RangeVars(mu)
    decreases ArgsRank(mu, ts), |mu| + 2
  {
    if |ts| == 0 then []
    else [Substitute(mu, ts[0])] + SubstituteArgs(mu, ts[1..])
  }

  lemma SubsetCard<T>(a: set<T>, b: set<T>)
    requires a <= b
    ensures |a| <= |b|
    decreases a
  {
    if a != {} {
      var x :| x in a;
      SubsetCard(a - {x}, b - {x});
    }
  }

  /** Variables of the problem that the list does not bind yet: the first component of the
      termination measure of unification. A failed unification has nothing left to do. */
  ghost function Unsolved(vs: set<string>, mgu: Option<Subst>): nat
  {
    if mgu.None? then 0 else |(vs + AllVars(mgu.value)) - Dom(mgu.value)|
  }

  ghost function RankOpt(mgu: Option<Subst>, t: Term): nat
  {
    if mgu.None? then 0 else Rank(mgu.value, t)
  }

  ghost function ArgsRankOpt(mgu: Option<Subst>, ts: seq<Term>): nat
  {
    if mgu.None? then 0 else ArgsRank(mgu.value, ts)
  }

  /** A successful unification from `mgu` returns a well-formed list that keeps `mgu` as an
      unchanged prefix and mentions only variables of the problem. */
  ghost predicate Grows(vs: set<string>, mgu: Option<Subst>, r: Option<Subst>)
  {
    r.Some? ==>
      && mgu.Some?
      && WellFormed(r.value)
      && Extends(mgu.value, r.value)
      && AllVars(r.value) <= vs + AllVars(mgu.value)
  }

  /** `unify(formula1, formula2, mgu)` on terms. A name or arity clash is a failure here;
      `UnifyAsWritten` adds the `NameError` the source raises there instead. With `corrected`
      set, a variable whose other side substitutes to the variable itself is already unified
      (see `UnifyVariable`); left unset, the call is the source's. */
  function Unify(t1: Term, t2: Term, mgu: Option<Subst>, corrected: bool := false): (r: Option<Subst>)
    requires mgu.Some? ==> WellFormed(mgu.value)
    ensures mgu.None? ==> r.None?
    ensures mgu.Some? && t1 == t2 ==> r == mgu
    ensures mgu.Some? && t1.Fn? && t2.Fn? && (t1.name != t2.name || |t1.args| != |t2.args|) ==> r.None?
    ensures Grows(Vars(t1) + Vars(t2), mgu, r)
    decreases Unsolved(Vars(t1) + Vars(t2), mgu), RankOpt(mgu, t1) + RankOpt(mgu, t2), 2, 0
  {
    if mgu.None? then None
    else if t1 == t2 then mgu
    else if t1.Fn? && t2.Fn? then
      if t1.name != t2.name || |t1.args| != |t2.args| then None
      else UnifyArgs(t1.args, t2.args, mgu, corrected)
    else if t1.Var? then UnifyVariable(t1.name, t2, mgu.value, corrected)
    else
      assert {t2.name} + Vars(t1) == Vars(t1) + Vars(t2);
      UnifyVariable(t2.name, t1, mgu.value, corrected)
  }

  /** `unify_variable(variable, expression, mgu)`. As written, an unbound variable is bound to
      the substituted expression unless the occurs-check finds it there, even when that
      expression is the variable itself: after `[x/y]`, unifying `x` with `y` substitutes `y`
      to `x` and fails. With `corrected`, that case returns the list unchanged. */
  function UnifyVariable(v: string, e: Term, mgu: Subst, corrected: bool := false): (r: Option<Subst>)
    requires WellFormed(mgu)
    ensures v !in Dom(mgu) && !(corrected && Substitute(mgu, e) == Var(v)) ==>
      (r.None? <==> v in Vars(Substitute(mgu, e)))
    ensures v !in Dom(mgu) && !(corrected && Substitute(mgu, e) == Var(v)) && r.Some? ==>
      r.value == mgu + [Binding(v, Substitute(mgu, e))]
    ensures v !in Dom(mgu) && corrected && Substitute(mgu, e) == Var(v) ==> r == Some(mgu)
    ensures Grows({v} + Vars(e), Some(mgu), r)
    decreases Unsolved({v} + Vars(e), Some(mgu)), Rank(mgu, Var(v)) + Rank(mgu, e), 1, 0
  {
    var j := IndexOf(mgu, 0, v);
    if j < |mgu| then
      RankOfBound(mgu, j);
      assert Vars(mgu[j].replacement) + Vars(e) + AllVars(mgu) == {v} + Vars(e) + AllVars(mgu);
      Unify(mgu[j].replacement, e, Some(mgu), corrected)
    else
      assert v !in Dom(mgu);
      BindUnbound(v, e, mgu, corrected)
  }

  /** The case of `unify_variable` where `v` has no binding yet: bind it to `e` with `mgu`
      applied, unless the occurs-check fails. */
  function BindUnbound(v: string, e: Term, mgu: Subst, corrected: bool): (r: Option<Subst>)
    requires WellFormed(mgu) && v !in Dom(mgu)
    ensures !(corrected && Substitute(mgu, e) == Var(v)) ==>
      (r.None? <==> v in Vars(Substitute(mgu, e)))
    ensures !(corrected && Substitute(mgu, e) == Var(v)) && r.Some? ==>
      r.value == mgu + [Binding(v, Substitute(mgu, e))]
    ensures corrected && Substitute(mgu, e) == Var(v) ==> r == Some(mgu)
    ensures Grows({v} + Vars(e), Some(mgu), r)
  {
    var t := Substitute(mgu, e);
    OccursIffInVars(v, t);
    if corrected && t == Var(v) then Some(mgu)
    else if Occurs(v, t) then None
    else
      AppendBinding(mgu, v, e, t);
      Some(mgu + [Binding(v, t)])
  }

  /** Appending the binding `v -> substitute(mgu, e)` for an unbound `v` that passed the
      occurs-check keeps the list well formed. */
  lemma AppendBinding(mgu: Subst, v: string, e: Term, t: Term)
    requires WellFormed(mgu) && Vars(t) !! Dom(mgu) && Vars(t) <= Vars(e) + RangeVars(mgu)
    requires v !in Dom(mgu) && v !in Vars(t)
    ensures Grows({v} + Vars(e), Some(mgu), Some(mgu + [Binding(v, t)]))
  {
    var r := mgu + [Binding(v, t)];
    assert r[..|mgu|] == mgu;
    DomAppend(mgu, Binding(v, t));
    RangeVarsAppend(mgu, Binding(v, t));
    WellFormedAppend(mgu, Binding(v, t));
    assert AllVars(r) == AllVars(mgu) + {v} + Vars(t);
  }

  lemma DomAppend(mu: Subst, b: Binding)
    ensures Dom(mu + [b]) == Dom(mu) + {b.variable}
  {
    var r := mu + [b];
    forall x | x in Dom(r) ensures x in Dom(mu) + {b.variable} {
      var i :| 0 <= i < |r| && r[i].variable == x;
      if i < |mu| { assert r[i] == mu[i]; }
    }
    forall x | x in Dom(mu) ensures x in Dom(r) {
      var i :| 0 <= i < |mu| && mu[i].variable == x;
      assert r[i] == mu[i];
    }
    assert r[|mu|] == b;
  }

  lemma RangeVarsAppend(mu: Subst, b: Binding)
    ensures RangeVars(mu + [b]) == RangeVars(mu) + Vars(b.replacement)
  {
    var r := mu + [b];
    forall x | x in RangeVars(r) ensures x in RangeVars(mu) + Vars(b.replacement) {
      var i :| 0 <= i < |r| && x in Vars(r[i].replacement);
      if i < |mu| { assert r[i] == mu[i]; }
    }
    forall x | x in RangeVars(mu) ensures x in RangeVars(r) {
      var i :| 0 <= i < |mu| && x in Vars(mu[i].replacement);
      assert r[i] == mu[i];
    }
    assert r[|mu|] == b;
  }

  lemma WellFormedAppend(mu: Subst, b: Binding)
    requires WellFormed(mu)
    requires b.variable !in Dom(mu)
    requires Dom(mu) !! Vars(b.replacement) && b.variable !in Vars(b.replacement)
    ensures WellFormed(mu + [b])
  {
    var r := mu + [b];
    forall i, j | 0 <= i < j < |r| ensures r[i].variable != r[j].variable {
      if j == |mu| { assert r[i] == mu[i]; assert mu[i].variable in Dom(mu); }
    }
    forall i, j | 0 <= j <= i < |r| ensures r[j].variable !in Vars(r[i].replacement) {
      if i == |mu| {
        if j < |mu| { assert r[j] == mu[j]; assert mu[j].variable in Dom(mu); }
      } else {
        assert r[i] == mu[i] && r[j] == mu[j];
      }
    }
  }

  /** The loop of `unify` over `zip(formula1.children, formula2.children)`: each pair is
      unified with the list the pairs before it produced. */
  function UnifyArgs(xs: seq<Term>, ys: seq<Term>, mgu: Option<Subst>, corrected: bool := false): (r: Option<Subst>)
    requires |xs| == |ys|
    requires mgu.Some? ==> WellFormed(mgu.value)
    ensures mgu.None? ==> r.None?
    ensures Grows(ArgsVars(xs) + ArgsVars(ys), mgu, r)
    decreases Unsolved(ArgsVars(xs) + ArgsVars(ys), mgu), ArgsRankOpt(mgu, xs) + ArgsRankOpt(mgu, ys), 3, |xs|
  {
    if |xs| == 0 then mgu
    else
      ArgsHeadMeasure(xs, ys, mgu);
      var m := Unify(xs[0], ys[0], mgu, corrected);
      ArgsTailMeasure(xs, ys, mgu, m);
      var r := UnifyArgs(xs[1..], ys[1..], m, corrected);
      ArgsVarsSplit(xs);
      ArgsVarsSplit(ys);
      GrowsChain(Vars(xs[0]) + Vars(ys[0]), ArgsVars(xs[1..]) + ArgsVars(ys[1..]), ArgsVars(xs) + ArgsVars(ys), mgu, m, r);
      r
  }

  /** The first argument pair is a smaller problem than the whole list. */
  lemma ArgsHeadMeasure(xs: seq<Term>, ys: seq<Term>, mgu: Option<Subst>)
    requires |xs| == |ys| > 0
    ensures Unsolved(Vars(xs[0]) + Vars(ys[0]), mgu) <= Unsolved(ArgsVars(xs) + ArgsVars(ys), mgu)
    ensures RankOpt(mgu, xs[0]) + RankOpt(mgu, ys[0]) <= ArgsRankOpt(mgu, xs) + ArgsRankOpt(mgu, ys)
  {
    ArgsVarsSplit(xs);
    ArgsVarsSplit(ys);
    if mgu.Some? {
      var m := mgu.value;
      SubsetCard((Vars(xs[0]) + Vars(ys[0]) + AllVars(m)) - Dom(m),
                 (ArgsVars(xs) + ArgsVars(ys) + AllVars(m)) - Dom(m));
    }
  }

  lemma ExtendsDom(m0: Subst, m1: Subst)
    requires Extends(m0, m1)
    ensures Dom(m0) <= Dom(m1)
    ensures |m1| > |m0| ==> m1[|m0|].variable in Dom(m1)
  {
    forall x | x in Dom(m0) ensures x in Dom(m1) {
      var i :| 0 <= i < |m0| && m0[i].variable == x;
      assert m1[..|m0|][i] == m1[i];
    }
  }

  /** A well-formed extension that is longer binds a variable the shorter list did not. */
  lemma ExtendsNewVariable(m0: Subst, m1: Subst)
    requires Extends(m0, m1) && WellFormed(m1) && |m1| > |m0|
    ensures m1[|m0|].variable !in Dom(m0)
  {
    forall i | 0 <= i < |m0| ensures m0[i].variable != m1[|m0|].variable {
      assert m0[i] == m1[..|m0|][i] == m1[i];
    }
  }

  /** A set difference shrinks when the universe shrinks and the removed part grows, and
      strictly so when a new member of the universe is removed. */
  lemma UnsolvedShrinks(child: set<string>, parent: set<string>, d0: set<string>, d1: set<string>, w: string, grown: bool)
    requires child <= parent && d0 <= d1
    requires grown ==> w in parent && w in d1 && w !in d0
    ensures |child - d1| <= |parent - d0|
    ensures grown ==> |child - d1| < |parent - d0|
  {
    if grown {
      SubsetCard(child - d1, (parent - d0) - {w});
    } else {
      SubsetCard(child - d1, parent - d0);
    }
  }

  /** After the first pair, the rest of the list is a smaller problem: either the first pair
      bound a new variable of the problem, or the list is unchanged and the terms shrank. */
  lemma ArgsTailMeasure(xs: seq<Term>, ys: seq<Term>, mgu: Option<Subst>, m: Option<Subst>)
    requires |xs| == |ys| > 0
    requires mgu.Some? ==> WellFormed(mgu.value)
    requires mgu.None? ==> m.None?
    requires Grows(Vars(xs[0]) + Vars(ys[0]), mgu, m)
    ensures m.Some? ==> WellFormed(m.value)
    ensures Unsolved(ArgsVars(xs[1..]) + ArgsVars(ys[1..]), m) <= Unsolved(ArgsVars(xs) + ArgsVars(ys), mgu)
    ensures mgu.Some? && Unsolved(ArgsVars(xs[1..]) + ArgsVars(ys[1..]), m) == Unsolved(ArgsVars(xs) + ArgsVars(ys), mgu)
      ==> ArgsRankOpt(m, xs[1..]) + ArgsRankOpt(m, ys[1..]) < ArgsRankOpt(mgu, xs) + ArgsRankOpt(mgu, ys)
  {
    ArgsVarsSplit(xs);
    ArgsVarsSplit(ys);
    if m.Some? {
      var m0, m1 := mgu.value, m.value;
      var parent := ArgsVars(xs) + ArgsVars(ys) + AllVars(m0);
      var child := ArgsVars(xs[1..]) + ArgsVars(ys[1..]) + AllVars(m1);
      ExtendsDom(m0, m1);
      assert child <= parent;
      if |m1| == |m0| {
        assert m1 == m1[..|m0|];
        UnsolvedShrinks(child, parent, Dom(m0), Dom(m1), "", false);
        ArgsRankTail(m0, xs);
        ArgsRankTail(m0, ys);
      } else {
        ExtendsNewVariable(m0, m1);
        UnsolvedShrinks(child, parent, Dom(m0), Dom(m1), m1[|m0|].variable, true);
      }
    } else if mgu.Some? {
      ArgsRankTail(mgu.value, xs);
    }
  }

  lemma ArgsRankTail(mu: Subst, ts: seq<Term>)
    requires |ts| > 0
    ensures ArgsRank(mu, ts[1..]) < ArgsRank(mu, ts)
  {
    assert RankFrom(mu, 0, ts[0]) > 0;
  }

  lemma GrowsChain(a: set<string>, b: set<string>, c: set<string>, m0: Option<Subst>, m1: Option<Subst>, m2: Option<Subst>)
    requires Grows(a, m0, m1) && Grows(b, m1, m2) && a + b <= c
    requires m1.None? ==> m2.None?
    ensures Grows(c, m0, m2)
  {
    if m2.Some? {
      var s0, s1, s2 := m0.value, m1.value, m2.value;
      assert s2[..|s0|] == s2[..|s1|][..|s0|];
    }
  }

  /** `unify` on two predicates: a different name or arity fails, otherwise the argument
      lists are unified pairwise. The polarity flag is not compared. */
  function UnifyPredicates(p: Predicate, q: Predicate, mgu: Option<Subst>, corrected: bool := false): (r: Option<Subst>)
    requires mgu.Some? ==> WellFormed(mgu.value)
    ensures mgu.None? || p.name != q.name || |p.args| != |q.args| ==> r.None?
    ensures Grows(ArgsVars(p.args) + ArgsVars(q.args), mgu, r)
  {
    if mgu.None? then None
    else if p.name != q.name || |p.args| != |q.args| then None
    else UnifyArgs(p.args, q.args, mgu, corrected)
  }

  /** Whether the source's `unify` raises: a name, type or arity clash evaluates the
      undefined lowercase `false` (unification.py line 21), and the `NameError` leaves every
      enclosing call, since the argument loop does not catch it. Only a clash reached before
      any other failure counts: once the list is `False`, later pairs return at once. */
  predicate Raises(t1: Term, t2: Term, mgu: Option<Subst>)
    requires mgu.Some? ==> WellFormed(mgu.value)
    ensures Raises(t1, t2, mgu) ==> Unify(t1, t2, mgu).None?
    decreases Unsolved(Vars(t1) + Vars(t2), mgu), RankOpt(mgu, t1) + RankOpt(mgu, t2), 2, 0
  {
    if mgu.None? then false
    else if t1 == t2 then false
    else if t1.Fn? && t2.Fn? then
      if t1.name != t2.name || |t1.args| != |t2.args| then true
      else RaisesArgs(t1.args, t2.args, mgu)
    else if t1.Var? then RaisesVariable(t1.name, t2, mgu.value)
    else
      assert {t2.name} + Vars(t1) == Vars(t1) + Vars(t2);
      RaisesVariable(t2.name, t1, mgu.value)
  }

  /** `unify_variable` raises only through the `unify` call for a bound variable. */
  predicate RaisesVariable(v: string, e: Term, mgu: Subst)
    requires WellFormed(mgu)
    ensures RaisesVariable(v, e, mgu) ==> UnifyVariable(v, e, mgu).None?
    decreases Unsolved({v} + Vars(e), Some(mgu)), Rank(mgu, Var(v)) + Rank(mgu, e), 1, 0
  {
    var j := IndexOf(mgu, 0, v);
    if j < |mgu| then
      RankOfBound(mgu, j);
      assert Vars(mgu[j].replacement) + Vars(e) + AllVars(mgu) == {v} + Vars(e) + AllVars(mgu);
      Raises(mgu[j].replacement, e, Some(mgu))
    else false
  }

  /** The argument loop raises when some pair raises, given the list the pairs before it
      produced. */
  predicate RaisesArgs(xs: seq<Term>, ys: seq<Term>, mgu: Option<Subst>)
    requires |xs| == |ys|
    requires mgu.Some? ==> WellFormed(mgu.value)
    ensures RaisesArgs(xs, ys, mgu) ==> UnifyArgs(xs, ys, mgu).None?
    decreases Unsolved(ArgsVars(xs) + ArgsVars(ys), mgu), ArgsRankOpt(mgu, xs) + ArgsRankOpt(mgu, ys), 3, |xs|
  {
    if |xs| == 0 then false
    else
      ArgsHeadMeasure(xs, ys, mgu);
      var m := Unify(xs[0], ys[0], mgu);
      ArgsTailMeasure(xs, ys, mgu, m);
      Raises(xs[0], ys[0], mgu) || RaisesArgs(xs[1..], ys[1..], m)
  }

  /** The outcome of the source's `unify` on terms: the `NameError` it raises, or the list
      (or `False`) it returns. Where it does not raise it agrees with `Unify`, and where it
      raises, `Unify` reports a failure. */
  function UnifyAsWritten(t1: Term, t2: Term, mgu: Option<Subst>): (r: Result<Option<Subst>>)
    requires mgu.Some? ==> WellFormed(mgu.value)
    ensures r.Err? ==> r.error == NameError && Unify(t1, t2, mgu).None?
    ensures r.Ok? ==> r.value == Unify(t1, t2, mgu)
    ensures mgu.Some? && t1.Fn? && t2.Fn? && t1.name != t2.name ==> r.Err?
  {
    if Raises(t1, t2, mgu) then Err(NameError) else Ok(Unify(t1, t2, mgu))
  }

  /** The source's `unify` on two predicates: a name or arity clash raises. */
  function UnifyPredicatesAsWritten(p: Predicate, q: Predicate, mgu: Option<Subst>): (r: Result<Option<Subst>>)
    requires mgu.Some? ==> WellFormed(mgu.value)
    ensures r.Err? ==> r.error == NameError && UnifyPredicates(p, q, mgu).None?
    ensures r.Ok? ==> r.value == UnifyPredicates(p, q, mgu)
    ensures mgu.Some? && p != q && (p.name != q.name || |p.args| != |q.args|) ==> r.Err?
  {
    if mgu.None? || p == q then Ok(UnifyPredicates(p, q, mgu))
    else if p.name != q.name || |p.args| != |q.args| then Err(NameError)
    else if RaisesArgs(p.args, q.args, mgu) then Err(NameError)
    else Ok(UnifyPredicates(p, q, mgu))
  }
}
