/** `standardize_apart`: renames quantifier-bound variables so that no two quantifiers
    bind the same name, and renames every variable occurrence to its binder's new name. */
module Standardize {
  import opened Common
  import opened Terms
  import opened Formulas
  import opened Names
  import opened AlphaEquivalence

  /** Every variable occurrence in `f` is bound, either by a quantifier of `f` on its
      path or by a name in `bound`. */
  ghost predicate Closed(f: Formula, bound: set<string>)
  {
    match f
    case Atom(p) => ArgsVars(p.args) <= bound
    case And(cs, _) => forall i :: 0 <= i < |cs| ==> Closed(cs[i], bound)
    case Or(cs, _) => forall i :: 0 <= i < |cs| ==> Closed(cs[i], bound)
    case Implies(a, b, _) => Closed(a, bound) && Closed(b, bound)
    case Iff(a, b, _) => Closed(a, bound) && Closed(b, bound)
    case ForAll(v, b, _) => Closed(b, bound + {v})
    case Exists(v, b, _) => Closed(b, bound + {v})
  }

  /** The names bound by the quantifiers of `f`, in left-to-right pre-order. */
  function Binders(f: Formula): seq<string>
  {
    match f
    case Atom(_) => []
    case And(cs, _) => BindersAll(cs)
    case Or(cs, _) => BindersAll(cs)
    case Implies(a, b, _) => Binders(a) + Binders(b)
    case Iff(a, b, _) => Binders(a) + Binders(b)
    case ForAll(v, b, _) => [v] + Binders(b)
    case Exists(v, b, _) => [v] + Binders(b)
  }

  function BindersAll(cs: seq<Formula>): seq<string>
  {
    if cs == [] then [] else Binders(cs[0]) + BindersAll(cs[1..])
  }

  /** `g` is `f` with every quantifier's bound name replaced by the one `g` gives it, and
      every variable occurrence renamed to the name its binder received; names bound
      outside `f` are renamed through `scope`. Connectives, flags and symbols are kept. */
  ghost predicate Renames(f: Formula, g: Formula, scope: map<string, string>)
  {
    match f
    case Atom(p) => g == Atom(p.(args := RenameAll(p.args, scope)))
    case And(cs, n) =>
      && g.And? && g.negated == n && |g.children| == |cs|
      && forall i :: 0 <= i < |cs| ==> Renames(cs[i], g.children[i], scope)
    case Or(cs, n) =>
      && g.Or? && g.negated == n && |g.children| == |cs|
      && forall i :: 0 <= i < |cs| ==> Renames(cs[i], g.children[i], scope)
    case Implies(a, b, n) =>
      g.Implies? && g.negated == n && Renames(a, g.antecedent, scope) && Renames(b, g.consequent, scope)
    case Iff(a, b, n) =>
      g.Iff? && g.negated == n && Renames(a, g.left, scope) && Renames(b, g.right, scope)
    case ForAll(v, b, n) => g.ForAll? && g.negated == n && Renames(b, g.body, scope[v := g.variable])
    case Exists(v, b, n) => g.Exists? && g.negated == n && Renames(b, g.body, scope[v := g.variable])
  }

  /** No quantifier of `g` binds a name of `avoid` or a name bound by a quantifier above it. */
  ghost predicate BindsFresh(g: Formula, avoid: seq<string>)
  {
    match g
    case Atom(_) => true
    case And(cs, _) => forall i :: 0 <= i < |cs| ==> BindsFresh(cs[i], avoid)
    case Or(cs, _) => forall i :: 0 <= i < |cs| ==> BindsFresh(cs[i], avoid)
    case Implies(a, b, _) => BindsFresh(a, avoid) && BindsFresh(b, avoid)
    case Iff(a, b, _) => BindsFresh(a, avoid) && BindsFresh(b, avoid)
    case ForAll(w, b, _) => w !in avoid && BindsFresh(b, avoid + [w])
    case Exists(w, b, _) => w !in avoid && BindsFresh(b, avoid + [w])
  }

  lemma {:induction false} BindsFreshMono(g: Formula, big: seq<string>, small: seq<string>)
    requires BindsFresh(g, big) && forall x :: x in small ==> x in big
    ensures BindsFresh(g, small)
  {
    match g
    case Atom(_) =>
    case And(cs, _) =>
      forall i | 0 <= i < |cs| ensures BindsFresh(cs[i], small) { BindsFreshMono(cs[i], big, small); }
    case Or(cs, _) =>
      forall i | 0 <= i < |cs| ensures BindsFresh(cs[i], small) { BindsFreshMono(cs[i], big, small); }
    case Implies(a, b, _) => BindsFreshMono(a, big, small); BindsFreshMono(b, big, small);
    case Iff(a, b, _) => BindsFreshMono(a, big, small); BindsFreshMono(b, big, small);
    case ForAll(w, b, _) => BindsFreshMono(b, big + [w], small + [w]);
    case Exists(w, b, _) => BindsFreshMono(b, big + [w], small + [w]);
  }

  /** Renames the variables of a term through `scope`; a variable with no entry is the
      `KeyError` of the source, reported as `UnboundVariable`. */
  function RenameTerm(t: Term, scope: map<string, string>): (r: Result<Term>)
    ensures r.Ok? <==> Vars(t) <= scope.Keys
    ensures r.Ok? ==> r.value == RenameVars(t, scope)
    ensures r.Ok? ==> Vars(r.value) <= scope.Values
    ensures r.Err? ==> r.error.UnboundVariable? && r.error.name in Vars(t) && r.error.name !in scope
  {
    match t
    case Var(n) => if n in scope then Ok(Var(scope[n])) else Err(UnboundVariable(n))
    case Fn(n, xs) =>
      var rs := RenameArgs(xs, scope);
      if rs.Err? then Err(rs.error) else Ok(Fn(n, rs.value))
  }

  function RenameArgs(xs: seq<Term>, scope: map<string, string>): (r: Result<seq<Term>>)
    ensures r.Ok? <==> ArgsVars(xs) <= scope.Keys
    ensures r.Ok? ==> r.value == RenameAll(xs, scope)
    ensures r.Ok? ==> |r.value| == |xs| && ArgsVars(r.value) <= scope.Values
    ensures r.Err? ==> r.error.UnboundVariable? && r.error.name in ArgsVars(xs) && r.error.name !in scope
    decreases xs
  {
    if xs == [] then Ok([])
    else
      ArgsVarsSplit(xs);
      var h := RenameTerm(xs[0], scope);
      if h.Err? then Err(h.error)
      else
        var t := RenameArgs(xs[1..], scope);
        if t.Err? then Err(t.error)
        else
          ArgsVarsSplit([h.value] + t.value);
          assert ([h.value] + t.value)[1..] == t.value;
          assert [h.value] + t.value == RenameAll(xs, scope) by {
            forall i | 1 <= i < |xs| ensures t.value[i - 1] == RenameVars(xs[i], scope) {
              assert xs[1..][i - 1] == xs[i];
            }
          }
          Ok([h.value] + t.value)
  }

  /** `standardize_apart` with its state made explicit: `scope` maps each bound name to the
      name it was given on the current path, and `used` lists every name assigned so far,
      threaded from sibling to sibling. The result holds the new formula and the new `used`. */
  function StandardizeApart(f: Formula, scope: map<string, string>, used: seq<string>)
    : (r: Result<(Formula, seq<string>)>)
    ensures r.Ok? <==> Closed(f, scope.Keys)
    ensures r.Err? ==> r.error.UnboundVariable? && r.error.name !in scope
    ensures r.Ok? ==> r.value.1 == used + Binders(r.value.0)
    ensures r.Ok? && NoDuplicates(used) ==> NoDuplicates(r.value.1)
    ensures r.Ok? ==> Renames(f, r.value.0, scope) && BindsFresh(r.value.0, used)
    ensures r.Ok? ==> KindOf(r.value.0) == KindOf(f)
    ensures r.Ok? && (f.ForAll? || f.Exists?) ==>
      && r.value.0.variable !in used
      && (r.value.0.variable == f.variable <==> f.variable !in used)
    decreases Size(f), 1
  {
    match f
    case Atom(p) =>
      var xs := RenameArgs(p.args, scope);
      if xs.Err? then Err(xs.error) else Ok((Atom(p.(args := xs.value)), used))
    case And(_, _) => StandardizeJunction(f, scope, used)
    case Or(_, _) => StandardizeJunction(f, scope, used)
    case Implies(_, _, _) => StandardizeBinary(f, scope, used)
    case Iff(_, _, _) => StandardizeBinary(f, scope, used)
    case ForAll(_, _, _) => StandardizeQuantifier(f, scope, used)
    case Exists(_, _, _) => StandardizeQuantifier(f, scope, used)
  }

  /** A conjunction or disjunction: its children in order, under the same scope. */
  function StandardizeJunction(f: Formula, scope: map<string, string>, used: seq<string>)
    : (r: Result<(Formula, seq<string>)>)
    requires f.And? || f.Or?
    ensures r.Ok? <==> Closed(f, scope.Keys)
    ensures r.Err? ==> r.error.UnboundVariable? && r.error.name !in scope
    ensures r.Ok? ==> r.value.1 == used + Binders(r.value.0)
    ensures r.Ok? && NoDuplicates(used) ==> NoDuplicates(r.value.1)
    ensures r.Ok? ==> Renames(f, r.value.0, scope) && BindsFresh(r.value.0, used)
    ensures r.Ok? ==> KindOf(r.value.0) == KindOf(f)
    decreases Size(f), 0
  {
    var rs := StandardizeAll(f.children, scope, used);
    if rs.Err? then Err(rs.error)
    else if f.And? then Ok((And(rs.value.0, f.negated), rs.value.1))
    else Ok((Or(rs.value.0, f.negated), rs.value.1))
  }

  /** An implication or equivalence: both sides, left first, under the same scope. */
  function StandardizeBinary(f: Formula, scope: map<string, string>, used: seq<string>)
    : (r: Result<(Formula, seq<string>)>)
    requires f.Implies? || f.Iff?
    ensures r.Ok? <==> Closed(f, scope.Keys)
    ensures r.Err? ==> r.error.UnboundVariable? && r.error.name !in scope
    ensures r.Ok? ==> r.value.1 == used + Binders(r.value.0)
    ensures r.Ok? && NoDuplicates(used) ==> NoDuplicates(r.value.1)
    ensures r.Ok? ==> Renames(f, r.value.0, scope) && BindsFresh(r.value.0, used)
    ensures r.Ok? ==> KindOf(r.value.0) == KindOf(f)
    decreases Size(f), 0
  {
    var a := if f.Implies? then f.antecedent else f.left;
    var b := if f.Implies? then f.consequent else f.right;
    var rs := StandardizePair(a, b, scope, used);
    if rs.Err? then Err(rs.error)
    else if f.Implies? then Ok((Implies(rs.value.0, rs.value.1, f.negated), rs.value.2))
    else Ok((Iff(rs.value.0, rs.value.1, f.negated), rs.value.2))
  }

  /** A quantifier: its bound name, kept or replaced, then its body. */
  function StandardizeQuantifier(f: Formula, scope: map<string, string>, used: seq<string>)
    : (r: Result<(Formula, seq<string>)>)
    requires f.ForAll? || f.Exists?
    ensures r.Ok? <==> Closed(f, scope.Keys)
    ensures r.Err? ==> r.error.UnboundVariable? && r.error.name !in scope
    ensures r.Ok? ==> r.value.1 == used + Binders(r.value.0)
    ensures r.Ok? && NoDuplicates(used) ==> NoDuplicates(r.value.1)
    ensures r.Ok? ==> Renames(f, r.value.0, scope) && BindsFresh(r.value.0, used)
    ensures r.Ok? ==> KindOf(r.value.0) == KindOf(f)
    ensures r.Ok? ==>
      && r.value.0.variable !in used
      && (r.value.0.variable == f.variable <==> f.variable !in used)
    decreases Size(f), 0
  {
    var rs := StandardizeBody(f.variable, f.body, scope, used);
    ClosedQuantifier(f, scope.Keys);
    if rs.Err? then Err(rs.error)
    else
      var g := Requantify(f, rs.value.0, rs.value.1);
      RequantifyFacts(f, rs.value.0, rs.value.1, scope, used);
      Ok((g, rs.value.2))
  }

  /** A quantifier of the same kind and flag as `f`, binding `v` over `b`. */
  function Requantify(f: Formula, v: string, b: Formula): (g: Formula)
    requires f.ForAll? || f.Exists?
    ensures KindOf(g) == KindOf(f) && g.variable == v && g.body == b && g.negated == f.negated
  {
    if f.ForAll? then ForAll(v, b, f.negated) else Exists(v, b, f.negated)
  }

  lemma ClosedQuantifier(f: Formula, bound: set<string>)
    requires f.ForAll? || f.Exists?
    ensures Closed(f, bound) == Closed(f.body, bound + {f.variable})
  {
  }

  /** What the renaming predicates say about a rebuilt quantifier, in terms of its body. */
  lemma RequantifyFacts(f: Formula, v: string, b: Formula, scope: map<string, string>, used: seq<string>)
    requires f.ForAll? || f.Exists?
    ensures Binders(Requantify(f, v, b)) == [v] + Binders(b)
    ensures Renames(f, Requantify(f, v, b), scope) == Renames(f.body, b, scope[f.variable := v])
    ensures BindsFresh(Requantify(f, v, b), used) == (v !in used && BindsFresh(b, used + [v]))
  {
  }

  /** The quantifier case: keep the bound name if it is unused, otherwise take a fresh one,
      and record it in the scope of the body only. Returns the name, the body and `used`. */
  function StandardizeBody(v: string, b: Formula, scope: map<string, string>, used: seq<string>)
    : (r: Result<(string, Formula, seq<string>)>)
    ensures r.Ok? <==> Closed(b, scope.Keys + {v})
    ensures r.Err? ==> r.error.UnboundVariable? && r.error.name !in scope
    ensures r.Ok? ==> r.value.2 == used + [r.value.0] + Binders(r.value.1)
    ensures r.Ok? && NoDuplicates(used) ==> NoDuplicates(r.value.2)
    ensures r.Ok? ==> r.value.0 !in used && (r.value.0 == v <==> v !in used)
    ensures r.Ok? ==> Renames(b, r.value.1, scope[v := r.value.0]) && BindsFresh(r.value.1, used + [r.value.0])
    decreases Size(b), 2
  {
    var name := if v !in used then v else NewVariable(used);
    assert scope[v := name].Keys == scope.Keys + {v};
    assert NoDuplicates(used) ==> NoDuplicates(used + [name]);
    var rb := StandardizeApart(b, scope[v := name], used + [name]);
    if rb.Err? then Err(rb.error) else Ok((name, rb.value.0, rb.value.1))
  }

  /** The two sides of an implication or equivalence, left first. */
  function StandardizePair(a: Formula, b: Formula, scope: map<string, string>, used: seq<string>)
    : (r: Result<(Formula, Formula, seq<string>)>)
    ensures r.Ok? <==> Closed(a, scope.Keys) && Closed(b, scope.Keys)
    ensures r.Err? ==> r.error.UnboundVariable? && r.error.name !in scope
    ensures r.Ok? ==> r.value.2 == used + Binders(r.value.0) + Binders(r.value.1)
    ensures r.Ok? ==> Renames(a, r.value.0, scope) && Renames(b, r.value.1, scope)
    ensures r.Ok? ==> BindsFresh(r.value.0, used) && BindsFresh(r.value.1, used)
    ensures r.Ok? && NoDuplicates(used) ==> NoDuplicates(r.value.2)
    decreases Size(a) + Size(b), 2
  {
    var ra := StandardizeApart(a, scope, used);
    if ra.Err? then Err(ra.error)
    else
      var rb := StandardizeApart(b, scope, ra.value.1);
      if rb.Err? then Err(rb.error)
      else
        BindsFreshMono(rb.value.0, ra.value.1, used);
        Ok((ra.value.0, rb.value.0, rb.value.1))
  }

  function StandardizeAll(cs: seq<Formula>, scope: map<string, string>, used: seq<string>)
    : (r: Result<(seq<Formula>, seq<string>)>)
    ensures r.Ok? <==> forall i :: 0 <= i < |cs| ==> Closed(cs[i], scope.Keys)
    ensures r.Err? ==> r.error.UnboundVariable? && r.error.name !in scope
    ensures r.Ok? ==> |r.value.0| == |cs| && r.value.1 == used + BindersAll(r.value.0)
    ensures r.Ok? ==> forall i :: 0 <= i < |cs| ==> Renames(cs[i], r.value.0[i], scope)
    ensures r.Ok? ==> forall i :: 0 <= i < |cs| ==> BindsFresh(r.value.0[i], used)
    ensures r.Ok? && NoDuplicates(used) ==> NoDuplicates(r.value.1)
    decreases SizeAll(cs), 3
  {
    if cs == [] then Ok(([], used))
    else
      var h := StandardizeApart(cs[0], scope, used);
      if h.Err? then Err(h.error)
      else
        var t := StandardizeAll(cs[1..], scope, h.value.1);
        if t.Err? then
          assert forall i :: 0 <= i < |cs[1..]| ==> cs[1..][i] == cs[i + 1];
          Err(t.error)
        else
          assert ([h.value.0] + t.value.0)[1..] == t.value.0;
          assert forall i :: 0 < i < |cs| ==> cs[i] == cs[1..][i - 1];
          forall i | 0 <= i < |t.value.0| ensures BindsFresh(t.value.0[i], used) {
            BindsFreshMono(t.value.0[i], h.value.1, used);
          }
          Ok(([h.value.0] + t.value.0, t.value.1))
  }

  /** Widening the set of bound names keeps a formula closed. */
  lemma {:induction false} ClosedMono(f: Formula, small: set<string>, big: set<string>)
    requires Closed(f, small) && small <= big
    ensures Closed(f, big)
  {
    match f
    case Atom(_) =>
    case And(cs, _) =>
      forall i | 0 <= i < |cs| ensures Closed(cs[i], big) { ClosedMono(cs[i], small, big); }
    case Or(cs, _) =>
      forall i | 0 <= i < |cs| ensures Closed(cs[i], big) { ClosedMono(cs[i], small, big); }
    case Implies(a, b, _) => ClosedMono(a, small, big); ClosedMono(b, small, big);
    case Iff(a, b, _) => ClosedMono(a, small, big); ClosedMono(b, small, big);
    case ForAll(v, b, _) => ClosedMono(b, small + {v}, big + {v});
    case Exists(v, b, _) => ClosedMono(b, small + {v}, big + {v});
  }

  lemma ClosedWiden(f: Formula, small: set<string>, big: set<string>)
    requires small <= big
    ensures Closed(f, small) ==> Closed(f, big)
  {
    if Closed(f, small) { ClosedMono(f, small, big); }
  }

  lemma ClosedWidenTail(cs: seq<Formula>, small: set<string>, big: set<string>)
    requires small <= big && |cs| > 0
    ensures (forall i :: 0 <= i < |cs| ==> Closed(cs[i], small)) ==>
            forall i :: 0 <= i < |cs[1..]| ==> Closed(cs[1..][i], big)
  {
    if forall i :: 0 <= i < |cs| ==> Closed(cs[i], small) {
      forall i | 0 <= i < |cs[1..]| ensures Closed(cs[1..][i], big) {
        ClosedMono(cs[1..][i], small, big);
      }
    }
  }

  /** `standardize_apart` as written: a single `scope` dictionary serves the whole walk, so
      the entry a quantifier makes stays in force after its body, for its later siblings and
      everything below them. The result also returns the scope as it is left. Every
      variable bound on its path is found (the scope only grows), but so may be variables
      bound only in an earlier sibling, and a variable that is free where it occurs but
      was bound earlier is renamed to that binder's name. */
  function StandardizeApartAsWritten(f: Formula, scope: map<string, string>, used: seq<string>)
    : (r: Result<(Formula, map<string, string>, seq<string>)>)
    ensures Closed(f, scope.Keys) ==> r.Ok?
    ensures r.Err? ==> r.error.UnboundVariable?
    ensures r.Ok? ==> scope.Keys <= r.value.1.Keys
    ensures r.Ok? ==> r.value.2 == used + Binders(r.value.0)
    ensures r.Ok? ==> KindOf(r.value.0) == KindOf(f)
    decreases Size(f), 0
  {
    match f
    case Atom(p) =>
      var xs := RenameArgs(p.args, scope);
      if xs.Err? then Err(xs.error) else Ok((Atom(p.(args := xs.value)), scope, used))
    case And(cs, n) =>
      var rs := StandardizeAllAsWritten(cs, scope, used);
      if rs.Err? then Err(rs.error) else Ok((And(rs.value.0, n), rs.value.1, rs.value.2))
    case Or(cs, n) =>
      var rs := StandardizeAllAsWritten(cs, scope, used);
      if rs.Err? then Err(rs.error) else Ok((Or(rs.value.0, n), rs.value.1, rs.value.2))
    case Implies(a, b, n) =>
      var rs := StandardizePairAsWritten(a, b, scope, used);
      if rs.Err? then Err(rs.error) else Ok((Implies(rs.value.0, rs.value.1, n), rs.value.2, rs.value.3))
    case Iff(a, b, n) =>
      var rs := StandardizePairAsWritten(a, b, scope, used);
      if rs.Err? then Err(rs.error) else Ok((Iff(rs.value.0, rs.value.1, n), rs.value.2, rs.value.3))
    case ForAll(v, b, n) =>
      var rs := StandardizeBodyAsWritten(v, b, scope, used);
      if rs.Err? then Err(rs.error) else Ok((ForAll(rs.value.0, rs.value.1, n), rs.value.2, rs.value.3))
    case Exists(v, b, n) =>
      var rs := StandardizeBodyAsWritten(v, b, scope, used);
      if rs.Err? then Err(rs.error) else Ok((Exists(rs.value.0, rs.value.1, n), rs.value.2, rs.value.3))
  }

  /** A quantifier, as written: the name is kept or replaced as in `StandardizeBody`, and its
      scope entry is made in the shared map. Returns the name, the body, the scope and `used`. */
  function StandardizeBodyAsWritten(v: string, b: Formula, scope: map<string, string>, used: seq<string>)
    : (r: Result<(string, Formula, map<string, string>, seq<string>)>)
    ensures Closed(b, scope.Keys + {v}) ==> r.Ok?
    ensures r.Err? ==> r.error.UnboundVariable?
    ensures r.Ok? ==> scope.Keys + {v} <= r.value.2.Keys
    ensures r.Ok? ==> r.value.3 == used + [r.value.0] + Binders(r.value.1)
    ensures r.Ok? ==> r.value.0 !in used && (r.value.0 == v <==> v !in used)
    decreases Size(b), 1
  {
    var name := if v !in used then v else NewVariable(used);
    assert scope[v := name].Keys == scope.Keys + {v};
    var rb := StandardizeApartAsWritten(b, scope[v := name], used + [name]);
    if rb.Err? then Err(rb.error) else Ok((name, rb.value.0, rb.value.1, rb.value.2))
  }

  /** The two sides of an implication or equivalence, as written: the right side sees the
      scope the left side left. */
  function StandardizePairAsWritten(a: Formula, b: Formula, scope: map<string, string>, used: seq<string>)
    : (r: Result<(Formula, Formula, map<string, string>, seq<string>)>)
    ensures Closed(a, scope.Keys) && Closed(b, scope.Keys) ==> r.Ok?
    ensures r.Err? ==> r.error.UnboundVariable?
    ensures r.Ok? ==> scope.Keys <= r.value.2.Keys
    ensures r.Ok? ==> r.value.3 == used + Binders(r.value.0) + Binders(r.value.1)
    decreases Size(a) + Size(b), 1
  {
    var ra := StandardizeApartAsWritten(a, scope, used);
    if ra.Err? then Err(ra.error)
    else
      ClosedWiden(b, scope.Keys, ra.value.1.Keys);
      var rb := StandardizeApartAsWritten(b, ra.value.1, ra.value.2);
      if rb.Err? then Err(rb.error) else Ok((ra.value.0, rb.value.0, rb.value.1, rb.value.2))
  }

  /** The children of a conjunction or disjunction, as written: each one sees the scope the
      ones before it left. */
  function StandardizeAllAsWritten(cs: seq<Formula>, scope: map<string, string>, used: seq<string>)
    : (r: Result<(seq<Formula>, map<string, string>, seq<string>)>)
    ensures (forall i :: 0 <= i < |cs| ==> Closed(cs[i], scope.Keys)) ==> r.Ok?
    ensures r.Err? ==> r.error.UnboundVariable?
    ensures r.Ok? ==> scope.Keys <= r.value.1.Keys
    ensures r.Ok? ==> |r.value.0| == |cs| && r.value.2 == used + BindersAll(r.value.0)
    decreases SizeAll(cs), 2
  {
    if cs == [] then Ok(([], scope, used))
    else
      var h := StandardizeApartAsWritten(cs[0], scope, used);
      if h.Err? then Err(h.error)
      else
        ClosedWidenTail(cs, scope.Keys, h.value.1.Keys);
        var t := StandardizeAllAsWritten(cs[1..], h.value.1, h.value.2);
        if t.Err? then Err(t.error)
        else
          assert ([h.value.0] + t.value.0)[1..] == t.value.0;
          Ok(([h.value.0] + t.value.0, t.value.1, t.value.2))
  }

  /** The top-level call: empty scope, nothing used yet. The result is the input with its
      bound variables renamed apart: alpha-equivalent to it, and binding no name twice. */
  function Standardize(f: Formula): (r: Result<Formula>)
    ensures r.Ok? <==> Closed(f, {})
    ensures r.Ok? ==> NoDuplicates(Binders(r.value))
    ensures r.Ok? ==> Renames(f, r.value, map[])
    ensures r.Ok? ==> AlphaEquivalent(f, r.value, [], [])
  {
    var empty: map<string, string> := map[];
    assert empty.Keys == {};
    var s := StandardizeApart(f, empty, []);
    if s.Err? then Err(s.error)
    else
      assert [] + Binders(s.value.0) == Binders(s.value.0);
      RenamesAlpha(f, s.value.0, empty, [], [], []);
      Ok(s.value.0)
  }

  /** How a renaming `scope` lines up two binder contexts: every renamed name is among
      `avoid`, and a name and its new name sit at the same depth of `cf` and `cg`. */
  ghost predicate Aligned(scope: map<string, string>, avoid: seq<string>, cf: seq<string>, cg: seq<string>)
  {
    forall a :: a in scope ==>
      && scope[a] in avoid
      && Depth(cf, a).Some?
      && Depth(cg, scope[a]) == Depth(cf, a)
  }

  /** Entering a quantifier that binds `v` under the new name `w`, fresh for `avoid`. */
  lemma AlignedPush(scope: map<string, string>, avoid: seq<string>, cf: seq<string>, cg: seq<string>, v: string, w: string)
    requires Aligned(scope, avoid, cf, cg) && w !in avoid
    ensures Aligned(scope[v := w], avoid + [w], [v] + cf, [w] + cg)
  {
    var s' := scope[v := w];
    forall a | a in s'
      ensures s'[a] in avoid + [w] && Depth([v] + cf, a).Some? && Depth([w] + cg, s'[a]) == Depth([v] + cf, a)
    {
      DepthPush(v, cf, a);
      DepthPush(w, cg, s'[a]);
    }
  }

  /** A term whose variables all have an entry in an aligned scope renames to an
      alpha-equivalent term. */
  lemma {:induction false} RenameVarsAlpha(t: Term, scope: map<string, string>, avoid: seq<string>, cf: seq<string>, cg: seq<string>)
    requires Vars(t) <= scope.Keys && Aligned(scope, avoid, cf, cg)
    ensures TermAlpha(t, RenameVars(t, scope), cf, cg)
  {
    match t
    case Var(n) =>
    case Fn(n, xs) =>
      forall i | 0 <= i < |xs| ensures TermAlpha(xs[i], RenameVars(xs[i], scope), cf, cg) {
        assert Vars(xs[i]) <= Vars(t);
        RenameVarsAlpha(xs[i], scope, avoid, cf, cg);
      }
  }

  /** A renaming whose new binders never capture a renamed name yields an alpha-equivalent
      formula. With the empty scope and contexts, this is what `Standardize` promises. */
  lemma {:induction false} RenamesAlpha(f: Formula, g: Formula, scope: map<string, string>, avoid: seq<string>, cf: seq<string>, cg: seq<string>)
    requires Renames(f, g, scope) && Closed(f, scope.Keys)
    requires BindsFresh(g, avoid) && Aligned(scope, avoid, cf, cg)
    ensures AlphaEquivalent(f, g, cf, cg)
  {
    match f
    case Atom(p) =>
      forall i | 0 <= i < |p.args| ensures TermAlpha(p.args[i], g.pred.args[i], cf, cg) {
        assert Vars(p.args[i]) <= ArgsVars(p.args);
        RenameVarsAlpha(p.args[i], scope, avoid, cf, cg);
      }
    case And(cs, _) =>
      forall i | 0 <= i < |cs| ensures AlphaEquivalent(cs[i], g.children[i], cf, cg) {
        RenamesAlpha(cs[i], g.children[i], scope, avoid, cf, cg);
      }
    case Or(cs, _) =>
      forall i | 0 <= i < |cs| ensures AlphaEquivalent(cs[i], g.children[i], cf, cg) {
        RenamesAlpha(cs[i], g.children[i], scope, avoid, cf, cg);
      }
    case Implies(a, b, _) =>
      RenamesAlpha(a, g.antecedent, scope, avoid, cf, cg);
      RenamesAlpha(b, g.consequent, scope, avoid, cf, cg);
    case Iff(a, b, _) =>
      RenamesAlpha(a, g.left, scope, avoid, cf, cg);
      RenamesAlpha(b, g.right, scope, avoid, cf, cg);
    case ForAll(v, b, _) =>
      AlignedPush(scope, avoid, cf, cg, v, g.variable);
      assert scope[v := g.variable].Keys == scope.Keys + {v};
      RenamesAlpha(b, g.body, scope[v := g.variable], avoid + [g.variable], [v] + cf, [g.variable] + cg);
    case Exists(v, b, _) =>
      AlignedPush(scope, avoid, cf, cg, v, g.variable);
      assert scope[v := g.variable].Keys == scope.Keys + {v};
      RenamesAlpha(b, g.body, scope[v := g.variable], avoid + [g.variable], [v] + cf, [g.variable] + cg);
  }
}
