/** What `unify` guarantees: its binding lists, read as sequential replacements, make the two
    terms equal; and the rules by which a call fails, keeps or extends the list. */
module UnificationProofs {
  import opened Common
  import opened Terms
  import opened Unification

  /** Reference reading of a binding list: apply its bindings one after the other, each to
      the result of the ones before it, starting at position `k`. */
  function ApplyFrom(mu: Subst, k: nat, t: Term): Term
    requires k <= |mu|
    decreases |mu| - k
  {
    if k == |mu| then t
    else ApplyFrom(mu, k + 1, Replace(t, mu[k].variable, mu[k].replacement))
  }

  function Apply(mu: Subst, t: Term): Term
  {
    ApplyFrom(mu, 0, t)
  }

  lemma {:induction false} ReplaceAbsent(t: Term, v: string, r: Term)
    requires v !in Vars(t)
    ensures Replace(t, v, r) == t
  {
    match t
    case Var(n) =>
    case Fn(n, xs) =>
      forall i | 0 <= i < |xs| ensures Replace(xs[i], v, r) == xs[i] {
        assert Vars(xs[i]) <= Vars(t);
        ReplaceAbsent(xs[i], v, r);
      }
      assert seq(|xs|, i requires 0 <= i < |xs| => Replace(xs[i], v, r)) == xs;
  }

  /** Replacing a variable by a term that does not mention it removes the variable. */
  lemma {:induction false} ReplaceRemoves(t: Term, v: string, r: Term)
    requires v !in Vars(r)
    ensures v !in Vars(Replace(t, v, r))
  {
    match t
    case Var(n) =>
    case Fn(n, xs) =>
      var ys := seq(|xs|, i requires 0 <= i < |xs| => Replace(xs[i], v, r));
      forall i | 0 <= i < |xs| ensures v !in Vars(ys[i]) {
        ReplaceRemoves(xs[i], v, r);
      }
  }

  lemma {:induction false} ApplyFromSkip(mu: Subst, lo: nat, hi: nat, t: Term)
    requires lo <= hi <= |mu|
    requires forall j :: lo <= j < hi ==> mu[j].variable !in Vars(t)
    ensures ApplyFrom(mu, lo, t) == ApplyFrom(mu, hi, t)
    decreases hi - lo
  {
    if lo < hi {
      ReplaceAbsent(t, mu[lo].variable, mu[lo].replacement);
      ApplyFromSkip(mu, lo + 1, hi, t);
    }
  }

  /** Applying a binding list to a function term applies it to every argument. */
  lemma {:induction false} ApplyFromFn(mu: Subst, k: nat, n: string, xs: seq<Term>)
    requires k <= |mu|
    ensures ApplyFrom(mu, k, Fn(n, xs)) == Fn(n, seq(|xs|, i requires 0 <= i < |xs| => ApplyFrom(mu, k, xs[i])))
    decreases |mu| - k
  {
    if k < |mu| {
      var b := mu[k];
      var ys := seq(|xs|, i requires 0 <= i < |xs| => Replace(xs[i], b.variable, b.replacement));
      ApplyFromFn(mu, k + 1, n, ys);
    }
  }

  lemma SubstituteArgsAt(mu: Subst, ts: seq<Term>, i: nat)
    requires WellFormed(mu) && i < |ts|
    ensures SubstituteArgs(mu, ts)[i] == Substitute(mu, ts[i])
    decreases i
  {
    if i > 0 {
      SubstituteArgsAt(mu, ts[1..], i - 1);
    }
  }

  lemma RankArgsAt(mu: Subst, ts: seq<Term>, i: nat)
    requires i < |ts|
    ensures Rank(mu, ts[i]) <= ArgsRank(mu, ts)
    decreases i
  {
    if i > 0 {
      RankArgsAt(mu, ts[1..], i - 1);
    }
  }

  /** The function case of `SubstituteFromIsApply`, once every argument is known to be
      substituted as the reference reading says. */
  lemma SubstituteFnIsApply(mu: Subst, k: nat, e: Term)
    requires WellFormed(mu) && k < |mu| && e.Fn? && Occurs(mu[k].variable, e)
    requires forall i :: 0 <= i < |e.args| ==> SubstituteArgs(mu, e.args)[i] == ApplyFrom(mu, k, e.args[i])
    ensures SubstituteFrom(mu, k, e) == ApplyFrom(mu, k, e)
  {
    var xs := SubstituteArgs(mu, e.args);
    ApplyFromFn(mu, k, e.name, e.args);
    assert Vars(Fn(e.name, xs)) !! Dom(mu) by {
      forall x | x in Vars(Fn(e.name, xs)) ensures x !in Dom(mu) {
        assert x in ArgsVars(xs);
        var i :| 0 <= i < |xs| && x in Vars(xs[i]);
      }
    }
    assert forall j :: k + 1 <= j < |mu| ==> mu[j].variable in Dom(mu);
    assert SubstituteFrom(mu, k, e) == Fn(e.name, xs);
    assert xs == seq(|e.args|, i requires 0 <= i < |e.args| => ApplyFrom(mu, k, e.args[i]));
  }

  /** The loop of `substitute` computes the reference reading of the list, for an
      expression in which the bindings already passed have nothing left to replace. */
  lemma {:induction false} SubstituteFromIsApply(mu: Subst, k: nat, e: Term)
    requires WellFormed(mu) && k <= |mu|
    requires forall j :: 0 <= j < k ==> mu[j].variable !in Vars(e)
    ensures SubstituteFrom(mu, k, e) == ApplyFrom(mu, k, e)
    decreases Rank(mu, e), |mu| - k
  {
    if k < |mu| {
      var b := mu[k];
      OccursIffInVars(b.variable, e);
      if Occurs(b.variable, e) {
        if e.Var? {
          RankOfBound(mu, k);
          SubstituteFromIsApply(mu, k + 1, b.replacement);
        } else {
          var xs := SubstituteArgs(mu, e.args);
          forall i | 0 <= i < |e.args|
            ensures xs[i] == ApplyFrom(mu, k, e.args[i])
          {
            SubstituteArgsAt(mu, e.args, i);
            RankArgsAt(mu, e.args, i);
            SubstituteFromIsApply(mu, 0, e.args[i]);
            assert Vars(e.args[i]) <= Vars(e);
            ApplyFromSkip(mu, 0, k, e.args[i]);
          }
          SubstituteFnIsApply(mu, k, e);
        }
      } else {
        ReplaceAbsent(e, b.variable, b.replacement);
        SubstituteFromIsApply(mu, k + 1, e);
      }
    }
  }

  /** `substitute` on a well-formed list is sequential replacement. */
  lemma SubstituteIsApply(mu: Subst, e: Term)
    requires WellFormed(mu)
    ensures Substitute(mu, e) == Apply(mu, e)
  {
    SubstituteFromIsApply(mu, 0, e);
  }

  lemma {:induction false} ApplyPrefix(m: Subst, m': Subst, k: nat, t: Term)
    requires Extends(m, m') && k <= |m|
    ensures ApplyFrom(m', k, t) == ApplyFrom(m', |m|, ApplyFrom(m, k, t))
    decreases |m| - k
  {
    if k < |m| {
      assert m'[k] == m'[..|m|][k] == m[k];
      ApplyPrefix(m, m', k + 1, Replace(t, m[k].variable, m[k].replacement));
    }
  }

  /** Terms a list already makes equal stay equal under every extension of it. */
  lemma ApplyExtends(m: Subst, m': Subst, a: Term, b: Term)
    requires Extends(m, m') && Apply(m, a) == Apply(m, b)
    ensures Apply(m', a) == Apply(m', b)
  {
    ApplyPrefix(m, m', 0, a);
    ApplyPrefix(m, m', 0, b);
  }

  /** A bound variable and its replacement read the same under a well-formed list. */
  lemma ApplyBound(m: Subst, j: nat)
    requires WellFormed(m) && j < |m|
    ensures Apply(m, Var(m[j].variable)) == Apply(m, m[j].replacement)
  {
    ApplyFromSkip(m, 0, j, Var(m[j].variable));
    ApplyFromSkip(m, 0, j + 1, m[j].replacement);
  }

  lemma ApplyUnbound(m: Subst, v: string)
    requires IndexOf(m, 0, v) == |m|
    ensures Apply(m, Var(v)) == Var(v)
  {
    ApplyFromSkip(m, 0, |m|, Var(v));
  }

  /** Soundness of `unify` on terms, as written and corrected alike: when it succeeds, the
      returned list, applied to both terms, makes them identical. */
  lemma {:induction false} UnifySound(t1: Term, t2: Term, mgu: Subst, corrected: bool)
    requires WellFormed(mgu) && Unify(t1, t2, Some(mgu), corrected).Some?
    ensures Apply(Unify(t1, t2, Some(mgu), corrected).value, t1) == Apply(Unify(t1, t2, Some(mgu), corrected).value, t2)
    decreases Unsolved(Vars(t1) + Vars(t2), Some(mgu)), RankOpt(Some(mgu), t1) + RankOpt(Some(mgu), t2), 2, 0
  {
    var r := Unify(t1, t2, Some(mgu), corrected).value;
    if t1 == t2 {
    } else if t1.Fn? && t2.Fn? {
      UnifyArgsSound(t1.args, t2.args, mgu, corrected);
      ApplyFnCongruence(r, t1, t2);
    } else if t1.Var? {
      UnifyVariableSound(t1.name, t2, mgu, corrected);
    } else {
      assert {t2.name} + Vars(t1) == Vars(t1) + Vars(t2);
      UnifyVariableSound(t2.name, t1, mgu, corrected);
    }
  }

  /** Two applications with the same name whose arguments agree under `r` agree under `r`. */
  lemma ApplyFnCongruence(r: Subst, t1: Term, t2: Term)
    requires t1.Fn? && t2.Fn? && t1.name == t2.name && |t1.args| == |t2.args|
    requires forall i :: 0 <= i < |t1.args| ==> Apply(r, t1.args[i]) == Apply(r, t2.args[i])
    ensures Apply(r, t1) == Apply(r, t2)
  {
    ApplyFromFn(r, 0, t1.name, t1.args);
    ApplyFromFn(r, 0, t2.name, t2.args);
    assert seq(|t1.args|, i requires 0 <= i < |t1.args| => ApplyFrom(r, 0, t1.args[i]))
        == seq(|t2.args|, i requires 0 <= i < |t2.args| => ApplyFrom(r, 0, t2.args[i]));
  }

  lemma {:induction false} UnifyVariableSound(v: string, e: Term, mgu: Subst, corrected: bool)
    requires WellFormed(mgu) && UnifyVariable(v, e, mgu, corrected).Some?
    ensures Apply(UnifyVariable(v, e, mgu, corrected).value, Var(v)) == Apply(UnifyVariable(v, e, mgu, corrected).value, e)
    decreases Unsolved({v} + Vars(e), Some(mgu)), Rank(mgu, Var(v)) + Rank(mgu, e), 1, 0
  {
    var r := UnifyVariable(v, e, mgu, corrected).value;
    var j := IndexOf(mgu, 0, v);
    if j < |mgu| {
      RankOfBound(mgu, j);
      assert Vars(mgu[j].replacement) + Vars(e) + AllVars(mgu) == {v} + Vars(e) + AllVars(mgu);
      UnifySound(mgu[j].replacement, e, mgu, corrected);
      assert r[j] == r[..|mgu|][j] == mgu[j];
      ApplyBound(r, j);
    } else if corrected && Substitute(mgu, e) == Var(v) {
      SubstituteIsApply(mgu, e);
      ApplyUnbound(mgu, v);
    } else {
      var t := Substitute(mgu, e);
      SubstituteIsApply(mgu, e);
      OccursIffInVars(v, t);
      assert r == mgu + [Binding(v, t)];
      assert r[..|mgu|] == mgu;
      ApplyPrefix(mgu, r, 0, Var(v));
      ApplyUnbound(mgu, v);
      ApplyPrefix(mgu, r, 0, e);
      ReplaceAbsent(t, v, t);
    }
  }

  /** Argument lists agree under `r` when their heads do and their tails do. */
  lemma ArgsAgreeCons(r: Subst, xs: seq<Term>, ys: seq<Term>)
    requires |xs| == |ys| > 0 && Apply(r, xs[0]) == Apply(r, ys[0])
    requires forall i :: 0 <= i < |xs| - 1 ==> Apply(r, xs[1..][i]) == Apply(r, ys[1..][i])
    ensures forall i :: 0 <= i < |xs| ==> Apply(r, xs[i]) == Apply(r, ys[i])
  {
    forall i | 1 <= i < |xs| ensures Apply(r, xs[i]) == Apply(r, ys[i]) {
      assert xs[1..][i - 1] == xs[i] && ys[1..][i - 1] == ys[i];
    }
  }

  lemma {:induction false} UnifyArgsSound(xs: seq<Term>, ys: seq<Term>, mgu: Subst, corrected: bool)
    requires |xs| == |ys| && WellFormed(mgu) && UnifyArgs(xs, ys, Some(mgu), corrected).Some?
    ensures forall i :: 0 <= i < |xs| ==>
      Apply(UnifyArgs(xs, ys, Some(mgu), corrected).value, xs[i]) == Apply(UnifyArgs(xs, ys, Some(mgu), corrected).value, ys[i])
    decreases Unsolved(ArgsVars(xs) + ArgsVars(ys), Some(mgu)), ArgsRankOpt(Some(mgu), xs) + ArgsRankOpt(Some(mgu), ys), 3, |xs|
  {
    if |xs| > 0 {
      var r := UnifyArgs(xs, ys, Some(mgu), corrected).value;
      ArgsHeadMeasure(xs, ys, Some(mgu));
      var m := Unify(xs[0], ys[0], Some(mgu), corrected);
      ArgsTailMeasure(xs, ys, Some(mgu), m);
      assert UnifyArgs(xs, ys, Some(mgu), corrected) == UnifyArgs(xs[1..], ys[1..], m, corrected);
      UnifySound(xs[0], ys[0], mgu, corrected);
      UnifyArgsSound(xs[1..], ys[1..], m.value, corrected);
      ApplyExtends(m.value, r, xs[0], ys[0]);
      ArgsAgreeCons(r, xs, ys);
    }
  }

  /** Soundness stated with the source's own `substitute`. */
  lemma UnifySubstitutes(t1: Term, t2: Term, mgu: Subst, corrected: bool)
    requires WellFormed(mgu) && Unify(t1, t2, Some(mgu), corrected).Some?
    ensures var r := Unify(t1, t2, Some(mgu), corrected).value; Substitute(r, t1) == Substitute(r, t2)
  {
    var r := Unify(t1, t2, Some(mgu), corrected).value;
    UnifySound(t1, t2, mgu, corrected);
    SubstituteIsApply(r, t1);
    SubstituteIsApply(r, t2);
  }

  /** Soundness for predicates: every argument position is made equal. */
  lemma UnifyPredicatesSound(p: Predicate, q: Predicate, mgu: Subst, corrected: bool)
    requires WellFormed(mgu) && UnifyPredicates(p, q, Some(mgu), corrected).Some?
    ensures var r := UnifyPredicates(p, q, Some(mgu), corrected).value;
      forall i :: 0 <= i < |p.args| ==> Substitute(r, p.args[i]) == Substitute(r, q.args[i])
  {
    var r := UnifyPredicates(p, q, Some(mgu), corrected).value;
    UnifyArgsSound(p.args, q.args, mgu, corrected);
    forall i | 0 <= i < |p.args| ensures Substitute(r, p.args[i]) == Substitute(r, q.args[i]) {
      SubstituteIsApply(r, p.args[i]);
      SubstituteIsApply(r, q.args[i]);
    }
  }

  /** Pairs are unified left to right: the list for a longer argument list is the list for
      its first part, carried on through the rest. */
  lemma {:induction false} UnifyArgsAppend(xs1: seq<Term>, xs2: seq<Term>, ys1: seq<Term>, ys2: seq<Term>, mgu: Option<Subst>)
    requires |xs1| == |ys1| && |xs2| == |ys2|
    requires mgu.Some? ==> WellFormed(mgu.value)
    ensures var m := UnifyArgs(xs1, ys1, mgu);
      UnifyArgs(xs1 + xs2, ys1 + ys2, mgu) == UnifyArgs(xs2, ys2, m)
    decreases |xs1|
  {
    if |xs1| > 0 {
      var m := Unify(xs1[0], ys1[0], mgu);
      assert (xs1 + xs2)[1..] == xs1[1..] + xs2 && (ys1 + ys2)[1..] == ys1[1..] + ys2;
      UnifyArgsAppend(xs1[1..], xs2, ys1[1..], ys2, m);
    } else {
      assert xs1 + xs2 == xs2 && ys1 + ys2 == ys2;
    }
  }

  lemma {:induction false} UnifyArgsFailed(xs: seq<Term>, ys: seq<Term>)
    requires |xs| == |ys|
    ensures UnifyArgs(xs, ys, None) == None
    decreases |xs|
  {
    if |xs| > 0 {
      UnifyArgsFailed(xs[1..], ys[1..]);
    }
  }

  /** A failing argument pair makes the whole argument list fail, whatever follows it. */
  lemma UnifyArgsFailsAt(xs: seq<Term>, xt: seq<Term>, ys: seq<Term>, yt: seq<Term>, mgu: Subst)
    requires |xs| == |ys| && |xt| == |yt| > 0 && WellFormed(mgu)
    requires UnifyArgs(xs, ys, Some(mgu)).Some?
    requires Unify(xt[0], yt[0], UnifyArgs(xs, ys, Some(mgu))) == None
    ensures UnifyArgs(xs + xt, ys + yt, Some(mgu)) == None
  {
    UnifyArgsHeadFails(xt, yt, UnifyArgs(xs, ys, Some(mgu)));
    UnifyArgsAppend(xs, xt, ys, yt, Some(mgu));
  }

  lemma UnifyArgsHeadFails(xs: seq<Term>, ys: seq<Term>, mgu: Option<Subst>)
    requires |xs| == |ys| > 0 && (mgu.Some? ==> WellFormed(mgu.value))
    requires Unify(xs[0], ys[0], mgu) == None
    ensures UnifyArgs(xs, ys, mgu) == None
  {
    UnifyArgsFailed(xs[1..], ys[1..]);
  }

  /** Equal argument lists leave the list unchanged. */
  lemma {:induction false} UnifyArgsSame(xs: seq<Term>, mgu: Subst)
    requires WellFormed(mgu)
    ensures UnifyArgs(xs, xs, Some(mgu)) == Some(mgu)
    decreases |xs|
  {
    if |xs| > 0 {
      UnifyArgsSame(xs[1..], mgu);
    }
  }

  /** Unifying a predicate with itself leaves the list unchanged. */
  lemma UnifyPredicatesSame(p: Predicate, mgu: Subst)
    requires WellFormed(mgu)
    ensures UnifyPredicates(p, p, Some(mgu)) == Some(mgu)
  {
    UnifyArgsSame(p.args, mgu);
  }

  /** A variable that has a binding is never bound again: its replacement, whichever binding
      of it one looks at, is unified against the other side instead. */
  lemma UnifyBoundVariable(v: string, e: Term, mgu: Subst, j: nat)
    requires WellFormed(mgu) && j < |mgu| && mgu[j].variable == v
    ensures UnifyVariable(v, e, mgu) == Unify(mgu[j].replacement, e, Some(mgu))
  {
    assert IndexOf(mgu, 0, v) == j;
  }

  lemma SubstituteEmpty(e: Term)
    ensures Substitute([], e) == e
  {
    assert Dom([]) == {};
  }
}