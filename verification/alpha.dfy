/** Alpha-equivalence of formulas: equal up to a consistent renaming of bound variables.
    Each variable occurrence is read as the distance to the quantifier that binds it (its
    de Bruijn index), and a free occurrence by its name. */
module AlphaEquivalence {
  import opened Common
  import opened Terms
  import opened Formulas

  /** The position of the innermost binder of `n` in `ctx`, the list of enclosing bound
      names, innermost first; `None` when `n` is free. */
  function Depth(ctx: seq<string>, n: string): (r: Option<nat>)
    ensures r.None? <==> n !in ctx
    ensures r.Some? ==> r.value < |ctx| && ctx[r.value] == n
    ensures r.Some? ==> forall i :: 0 <= i < r.value ==> ctx[i] != n
  {
    if ctx == [] then None
    else if ctx[0] == n then Some(0)
    else
      var d := Depth(ctx[1..], n);
      if d.None? then None else Some(d.value + 1)
  }

  /** One more binder in front of the context: its own name is at depth 0, every other
      bound name one deeper than before. */
  lemma DepthPush(v: string, ctx: seq<string>, n: string)
    ensures Depth([v] + ctx, n) == if n == v then Some(0)
                                   else if Depth(ctx, n).None? then None
                                   else Some(Depth(ctx, n).value + 1)
  {
    assert ([v] + ctx)[1..] == ctx;
  }

  /** `s` under the binders `cs` and `t` under the binders `ct` are the same term up to the
      names of bound variables. */
  ghost predicate TermAlpha(s: Term, t: Term, cs: seq<string>, ct: seq<string>)
  {
    match s
    case Var(a) =>
      && t.Var?
      && Depth(cs, a) == Depth(ct, t.name)
      && (Depth(cs, a).None? ==> a == t.name)
    case Fn(n, xs) =>
      && t.Fn? && t.name == n && |t.args| == |xs|
      && forall i :: 0 <= i < |xs| ==> TermAlpha(xs[i], t.args[i], cs, ct)
  }

  /** `f` under the binders `cf` and `g` under the binders `cg` are alpha-equivalent: the
      same connectives, quantifiers, predicates, function symbols and negation flags, with
      variable occurrences that agree as `TermAlpha` says. */
  ghost predicate AlphaEquivalent(f: Formula, g: Formula, cf: seq<string>, cg: seq<string>)
  {
    match f
    case Atom(p) =>
      && g.Atom? && g.pred.name == p.name && g.pred.negated == p.negated
      && |g.pred.args| == |p.args|
      && forall i :: 0 <= i < |p.args| ==> TermAlpha(p.args[i], g.pred.args[i], cf, cg)
    case And(cs, n) =>
      && g.And? && g.negated == n && |g.children| == |cs|
      && forall i :: 0 <= i < |cs| ==> AlphaEquivalent(cs[i], g.children[i], cf, cg)
    case Or(cs, n) =>
      && g.Or? && g.negated == n && |g.children| == |cs|
      && forall i :: 0 <= i < |cs| ==> AlphaEquivalent(cs[i], g.children[i], cf, cg)
    case Implies(a, b, n) =>
      g.Implies? && g.negated == n && AlphaEquivalent(a, g.antecedent, cf, cg) && AlphaEquivalent(b, g.consequent, cf, cg)
    case Iff(a, b, n) =>
      g.Iff? && g.negated == n && AlphaEquivalent(a, g.left, cf, cg) && AlphaEquivalent(b, g.right, cf, cg)
    case ForAll(v, b, n) =>
      g.ForAll? && g.negated == n && AlphaEquivalent(b, g.body, [v] + cf, [g.variable] + cg)
    case Exists(v, b, n) =>
      g.Exists? && g.negated == n && AlphaEquivalent(b, g.body, [v] + cf, [g.variable] + cg)
  }
}
