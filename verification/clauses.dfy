/** Clause extraction (`to_clause_form`) and the clause-level renaming that keeps the
    variables of different clauses apart (`change_clause_form_variable`,
    `clause_form_standardize_apart`). */
module Clauses {
  import opened Common
  import opened Terms
  import opened Formulas
  import opened Names
  import opened Cnf

  /** A clause lists its literals; the source's sets of predicates compare by identity, so
      no two literals of a clause are ever merged. */
  type Clause = seq<Predicate>

  /** The clause one conjunct stands for: a predicate gives a singleton, and a node with
      children gives its children, which must all be predicates. */
  function ClauseOf(d: Formula): (r: Result<Clause>)
    ensures r.Ok? <==> d.Atom? || ((d.And? || d.Or?) && forall i :: 0 <= i < |d.children| ==> d.children[i].Atom?)
    ensures r.Ok? && d.Atom? ==> r.value == [d.pred]
    ensures r.Ok? && !d.Atom? ==> |r.value| == |d.children| && forall i :: 0 <= i < |r.value| ==> Atom(r.value[i]) == d.children[i]
    ensures r.Err? ==> r.error == NotALiteral
  {
    match d
    case Atom(p) => Ok([p])
    case And(cs, _) => Literals(cs)
    case Or(cs, _) => Literals(cs)
    case _ => Err(NotALiteral)
  }

  function Literals(cs: seq<Formula>): (r: Result<Clause>)
    ensures r.Ok? <==> forall i :: 0 <= i < |cs| ==> cs[i].Atom?
    ensures r.Ok? ==> |r.value| == |cs| && forall i :: 0 <= i < |cs| ==> Atom(r.value[i]) == cs[i]
    ensures r.Err? ==> r.error == NotALiteral
  {
    if cs == [] then Ok([])
    else if !cs[0].Atom? then Err(NotALiteral)
    else
      var t := Literals(cs[1..]);
      assert forall i :: 0 < i < |cs| ==> cs[i] == cs[1..][i - 1];
      if t.Err? then Err(t.error) else Ok([cs[0].pred] + t.value)
  }

  /** One clause per formula of `cs`, in order; the first failure is the result. */
  function ClausesOf(cs: seq<Formula>): (r: Result<seq<Clause>>)
    ensures r.Ok? <==> forall i :: 0 <= i < |cs| ==> ClauseOf(cs[i]).Ok?
    ensures r.Ok? ==> |r.value| == |cs| && forall i :: 0 <= i < |cs| ==> ClauseOf(cs[i]) == Ok(r.value[i])
  {
    if cs == [] then Ok([])
    else
      var h := ClauseOf(cs[0]);
      var t := ClausesOf(cs[1..]);
      assert forall i :: 0 < i < |cs| ==> cs[i] == cs[1..][i - 1];
      if h.Err? then Err(h.error)
      else if t.Err? then Err(t.error)
      else Ok([h.value] + t.value)
  }

  /** What `get_children` can hand back: sub-formulas of a connective, or the argument
      terms of a predicate or function. */
  datatype Item = Sub(f: Formula) | Arg(t: Term)

  function Subs(cs: seq<Formula>): (r: seq<Item>)
    ensures |r| == |cs| && forall i :: 0 <= i < |cs| ==> r[i] == Sub(cs[i])
  {
    seq(|cs|, i requires 0 <= i < |cs| => Sub(cs[i]))
  }

  function Args(xs: seq<Term>): (r: seq<Item>)
    ensures |r| == |xs| && forall i :: 0 <= i < |xs| ==> r[i] == Arg(xs[i])
  {
    seq(|xs|, i requires 0 <= i < |xs| => Arg(xs[i]))
  }

  /** `get_children`: a connective's operands, a predicate's or function's arguments; a
      quantifier or a variable has none, and asking raises. */
  function ChildItems(d: Item): (r: Result<seq<Item>>)
    ensures r.Err? <==> (d.Sub? && (d.f.ForAll? || d.f.Exists?)) || (d.Arg? && d.t.Var?)
    ensures r.Err? ==> r.error == MissingChildren
    ensures d.Sub? && (d.f.And? || d.f.Or?) ==> r == Ok(Subs(d.f.children))
  {
    match d
    case Sub(Atom(p)) => Ok(Args(p.args))
    case Sub(And(cs, _)) => Ok(Subs(cs))
    case Sub(Or(cs, _)) => Ok(Subs(cs))
    case Sub(Implies(a, b, _)) => Ok([Sub(a), Sub(b)])
    case Sub(Iff(a, b, _)) => Ok([Sub(a), Sub(b)])
    case Sub(_) => Err(MissingChildren)
    case Arg(Var(_)) => Err(MissingChildren)
    case Arg(Fn(_, xs)) => Ok(Args(xs))
  }

  /** Whether a Python `set` can hold the item. `Function` and `Variable` define `__eq__`
      without `__hash__` (fol.py:20, fol.py:28), so Python makes their instances unhashable;
      predicates and connectives define no `__eq__` and hash by identity. */
  predicate Hashable(d: Item)
  {
    d.Sub?
  }

  /** The clause the loop body builds for one child: the predicate itself, or the `set` of
      that child's own children, which raises on a child that has none and on children that
      are terms. */
  function ItemClause(d: Item): (r: Result<seq<Item>>)
    ensures d.Sub? && d.f.Atom? ==> r == Ok([d])
    ensures r.Ok? ==> forall i :: 0 <= i < |r.value| ==> Hashable(r.value[i])
    ensures r.Err? <==> (d.Sub? && (d.f.ForAll? || d.f.Exists?)) || (d.Arg? && (d.t.Var? || d.t.args != []))
    ensures r.Err? && d.Arg? && d.t.Fn? ==> r.error == Unhashable
    ensures r.Err? && !(d.Arg? && d.t.Fn?) ==> r.error == MissingChildren
    ensures d.Sub? && (d.f.And? || d.f.Or?) ==> r == Ok(Subs(d.f.children))
    ensures d.Sub? && d.f.Implies? ==> r == Ok([Sub(d.f.antecedent), Sub(d.f.consequent)])
    ensures d.Sub? && d.f.Iff? ==> r == Ok([Sub(d.f.left), Sub(d.f.right)])
    ensures d.Arg? && d.t.Fn? && d.t.args == [] ==> r == Ok([])
  {
    if d.Sub? && d.f.Atom? then Ok([d])
    else
      var c := ChildItems(d);
      if c.Err? then c
      else
        assert d.Arg? && d.t.args != [] ==> !Hashable(c.value[0]);
        if exists i :: 0 <= i < |c.value| && !Hashable(c.value[i]) then Err(Unhashable)
        else c
  }

  /** The loop of `to_clause_form` over the top node's children: one clause per child, in
      order, and the first child that raises decides the error. */
  function ItemClauses(ds: seq<Item>): (r: Result<seq<seq<Item>>>)
    ensures r.Ok? <==> forall i :: 0 <= i < |ds| ==> ItemClause(ds[i]).Ok?
    ensures r.Ok? ==> |r.value| == |ds| && forall i :: 0 <= i < |ds| ==> ItemClause(ds[i]) == Ok(r.value[i])
    ensures r.Err? ==> exists i :: 0 <= i < |ds| && ItemClause(ds[i]) == Err(r.error)
                                   && forall j :: 0 <= j < i ==> ItemClause(ds[j]).Ok?
    ensures r.Err? ==> r.error == MissingChildren || r.error == Unhashable
  {
    if ds == [] then Ok([])
    else
      var h := ItemClause(ds[0]);
      var t := ItemClauses(ds[1..]);
      assert forall i :: 0 < i < |ds| ==> ds[i] == ds[1..][i - 1];
      if h.Err? then Err(h.error)
      else if t.Err? then
        var k :| 0 <= k < |ds[1..]| && ItemClause(ds[1..][k]) == Err(t.error)
                 && forall j :: 0 <= j < k ==> ItemClause(ds[1..][j]).Ok?;
        assert ItemClause(ds[k + 1]) == Err(t.error);
        Err(t.error)
      else Ok([h.value] + t.value)
  }

  /** A clause of literals, as the items the source puts in its sets. */
  function Lift(c: Clause): (r: seq<Item>)
    ensures |r| == |c| && forall i :: 0 <= i < |c| ==> r[i] == Sub(Atom(c[i]))
  {
    seq(|c|, i requires 0 <= i < |c| => Sub(Atom(c[i])))
  }

  function LiftAll(cls: seq<Clause>): (r: seq<seq<Item>>)
    ensures |r| == |cls| && forall i :: 0 <= i < |cls| ==> r[i] == Lift(cls[i])
  {
    seq(|cls|, i requires 0 <= i < |cls| => Lift(cls[i]))
  }

  /** A connective whose children are all predicates gives one unit clause per child. */
  lemma AtomChildrenAsWritten(f: Formula)
    ensures (f.And? || f.Or?) && (forall i :: 0 <= i < |f.children| ==> f.children[i].Atom?) ==>
      ItemClauses(Subs(f.children)) == Ok(seq(|f.children|, i requires 0 <= i < |f.children| => [Sub(f.children[i])]))
  {
    if (f.And? || f.Or?) && (forall i :: 0 <= i < |f.children| ==> f.children[i].Atom?) {
      var cs := f.children;
      var ds := Subs(cs);
      assert forall i :: 0 <= i < |cs| ==> ItemClause(ds[i]) == Ok([Sub(cs[i])]);
      var r := ItemClauses(ds);
      assert r.Ok?;
      var w := seq(|cs|, i requires 0 <= i < |cs| => [Sub(cs[i])]);
      assert |r.value| == |w|;
      assert forall i :: 0 <= i < |cs| ==> r.value[i] == w[i];
      assert r.value == w;
    }
  }

  /** `to_clause_form` as written: every child the top node hands back is read as one
      conjunct, even when the top node is a disjunction or a predicate, and a conjunct that
      is not a predicate contributes its own children unchecked, whatever they are. */
  function ToClauseFormAsWritten(f: Formula): (r: Result<seq<seq<Item>>>)
    ensures (f.ForAll? || f.Exists?) ==> r == Err(MissingChildren)
    ensures f.Atom? ==> (r.Ok? <==> forall i :: 0 <= i < |f.pred.args| ==> f.pred.args[i].Fn? && f.pred.args[i].args == [])
    ensures f.Atom? && r.Ok? ==>
      && |r.value| == |f.pred.args|
      && forall i :: 0 <= i < |f.pred.args| ==> r.value[i] == []
    ensures (f.And? || f.Or?) && (forall i :: 0 <= i < |f.children| ==> f.children[i].Atom?) ==>
      r == Ok(seq(|f.children|, i requires 0 <= i < |f.children| => [Sub(f.children[i])]))
    ensures r.Err? ==> r.error == MissingChildren || r.error == Unhashable
  {
    var top := ChildItems(Sub(f));
    AtomChildrenAsWritten(f);
    if top.Err? then Err(top.error) else ItemClauses(top.value)
  }

  /** `to_clause_form` as evidently intended: a conjunction gives one clause per conjunct,
      while a lone disjunction or a lone predicate is itself one clause. */
  function ToClauseForm(f: Formula): (r: Result<seq<Clause>>)
    ensures r.Ok? <==> f.Atom? || (f.Or? && ClauseOf(f).Ok?) || (f.And? && forall i :: 0 <= i < |f.children| ==> ClauseOf(f.children[i]).Ok?)
    ensures r.Ok? && !f.And? ==> |r.value| == 1 && ClauseOf(f) == Ok(r.value[0])
    ensures r.Ok? && f.And? ==> |r.value| == |f.children|
    ensures f.And? && r.Ok? ==> ToClauseFormAsWritten(f) == Ok(LiftAll(r.value))
  {
    match f
    case And(cs, n) =>
      AsWrittenConjunction(cs, n);
      ClausesOf(cs)
    case Or(_, _) => var c := ClauseOf(f); if c.Err? then Err(c.error) else Ok([c.value])
    case Atom(p) => Ok([[p]])
    case _ => Err(NotAConjunction)
  }

  /** On a conjunction of clauses the source's items are exactly the literals extracted. */
  lemma AsWrittenConjunction(cs: seq<Formula>, n: bool)
    ensures ClausesOf(cs).Ok? ==> ToClauseFormAsWritten(And(cs, n)) == Ok(LiftAll(ClausesOf(cs).value))
  {
    if ClausesOf(cs).Err? { return; }
    var cls := ClausesOf(cs).value;
    var ds := Subs(cs);
    forall i | 0 <= i < |cs| ensures ItemClause(ds[i]) == Ok(Lift(cls[i])) {
      var d := cs[i];
      assert ClauseOf(d) == Ok(cls[i]);
      if d.Atom? {
        assert cls[i] == [d.pred];
        assert Lift([d.pred]) == [Sub(d)];
      } else {
        assert d.And? || d.Or?;
        assert ChildItems(ds[i]) == Ok(Subs(d.children));
        assert |cls[i]| == |d.children|;
        assert forall j :: 0 <= j < |cls[i]| ==> Sub(Atom(cls[i][j])) == Sub(d.children[j]);
        assert Subs(d.children) == Lift(cls[i]);
      }
    }
    var r := ItemClauses(ds);
    assert r.Ok?;
    assert r.value == LiftAll(cls);
  }

  /** A clause holds when one of its literals does; a clause set when all its clauses do. */
  predicate EvalClause(c: Clause, val: Predicate -> bool)
  {
    exists i :: 0 <= i < |c| && val(c[i])
  }

  predicate EvalClauses(cls: seq<Clause>, val: Predicate -> bool)
  {
    forall j :: 0 <= j < |cls| ==> EvalClause(cls[j], val)
  }

  lemma ClauseMeaning(d: Formula, val: Predicate -> bool)
    requires IsClause(d) && Positive(d)
    ensures Propositional(d)
    ensures ClauseOf(d).Ok? && EvalClause(ClauseOf(d).value, val) == Eval(d, val)
  {
    var c := ClauseOf(d).value;
    if d.Or? {
      if EvalClause(c, val) {
        var i :| 0 <= i < |c| && val(c[i]);
        assert Eval(d.children[i], val);
      }
      if Eval(d, val) {
        var i :| 0 <= i < |d.children| && Eval(d.children[i], val);
        assert val(c[i]);
      }
    } else {
      assert val(c[0]) == val(d.pred);
    }
  }

  /** On a positive formula in conjunctive normal form, the clauses `ToClauseForm` extracts
      hold under exactly the valuations the formula holds under. */
  lemma ToClauseFormMeaning(f: Formula, val: Predicate -> bool)
    requires IsCnf(f) && Positive(f)
    ensures Propositional(f)
    ensures ToClauseForm(f).Ok? && EvalClauses(ToClauseForm(f).value, val) == Eval(f, val)
  {
    if f.And? {
      var cs := f.children;
      forall i | 0 <= i < |cs|
        ensures Propositional(cs[i]) && ClauseOf(cs[i]).Ok?
        ensures EvalClause(ClauseOf(cs[i]).value, val) == Eval(cs[i], val)
      {
        ClauseMeaning(cs[i], val);
      }
      var cls := ToClauseForm(f).value;
      assert forall i :: 0 <= i < |cs| ==> ClauseOf(cs[i]) == Ok(cls[i]);
    } else {
      ClauseMeaning(f, val);
    }
  }

  /** The discrepancy of `to_clause_form` as written: the disjunction `P | Q` comes back as
      the two unit clauses `{P}` and `{Q}`, which also demand `Q`. */
  lemma DisjunctionSplitAsWritten()
    ensures var p := Predicate("P", [], false);
            var q := Predicate("Q", [], false);
            var f := Or([Atom(p), Atom(q)], false);
            var val := (x: Predicate) => x == p;
            && ToClauseFormAsWritten(f) == Ok(LiftAll([[p], [q]]))
            && ToClauseForm(f) == Ok([[p, q]])
            && Eval(f, val)
            && !EvalClauses([[p], [q]], val)
  {
    var p := Predicate("P", [], false);
    var q := Predicate("Q", [], false);
    var f := Or([Atom(p), Atom(q)], false);
    var val := (x: Predicate) => x == p;
    var units := [[Sub(Atom(p))], [Sub(Atom(q))]];
    assert Lift([p]) == units[0] && Lift([q]) == units[1];
    assert LiftAll([[p], [q]]) == units;
    assert seq(|f.children|, i requires 0 <= i < |f.children| => [Sub(f.children[i])]) == units;
    var lits := Literals(f.children);
    assert lits.Ok? && Atom(lits.value[0]) == Atom(p) && Atom(lits.value[1]) == Atom(q);
    assert lits.value == [p, q];
    assert Eval(f.children[0], val);
    assert !EvalClause([q], val);
  }

  /** Two more shapes the loop accepts as written: a predicate at the top is read through
      its argument terms, so `P(a)` gives one empty clause; and a conjunct that is not made
      of literals puts its sub-formulas into the clause unchecked, where the intended
      extraction stops. */
  lemma OddShapesAsWritten()
    ensures var pa := Atom(Predicate("P", [Fn("a", [])], false));
            && ToClauseFormAsWritten(pa) == Ok([[]])
            && ToClauseForm(pa) == Ok([[Predicate("P", [Fn("a", [])], false)]])
    ensures var q := ForAll("y", Atom(Predicate("Q", [Var("y")], false)), false);
            var r := Atom(Predicate("R", [], false));
            var f := And([Or([q, r], false)], false);
            && ToClauseFormAsWritten(f) == Ok([[Sub(q), Sub(r)]])
            && ToClauseForm(f) == Err(NotALiteral)
  {
    var pa := Atom(Predicate("P", [Fn("a", [])], false));
    assert Args([Fn("a", [])]) == [Arg(Fn("a", []))];
    assert Args([]) == [];
    assert ItemClause(Arg(Fn("a", []))) == Ok([]);
    assert ChildItems(Sub(pa)) == Ok([Arg(Fn("a", []))]);
    var ra := ItemClauses([Arg(Fn("a", []))]);
    assert ra.Ok? && |ra.value| == 1 && ra.value[0] == [];
    assert ra.value == [[]];
    var q := ForAll("y", Atom(Predicate("Q", [Var("y")], false)), false);
    var r := Atom(Predicate("R", [], false));
    var d := Or([q, r], false);
    assert Subs([d]) == [Sub(d)];
    assert Subs([q, r]) == [Sub(q), Sub(r)];
    assert ItemClause(Sub(d)) == Ok([Sub(q), Sub(r)]);
    assert ClauseOf(d) == Err(NotALiteral);
    assert ClausesOf([d]) == Err(NotALiteral);
    assert ChildItems(Sub(And([d], false))) == Ok([Sub(d)]);
    var rd := ItemClauses([Sub(d)]);
    assert rd.Ok? && |rd.value| == 1 && rd.value[0] == [Sub(q), Sub(r)];
    assert rd.value == [[Sub(q), Sub(r)]];
  }

  /** A predicate at the top whose argument is a compound term: the children of `f(x)` are
      terms, and `set` raises on them. A variable argument has no children at all. */
  lemma TermChildrenAsWritten()
    ensures ToClauseFormAsWritten(Atom(Predicate("P", [Fn("f", [Var("x")])], false))) == Err(Unhashable)
    ensures ToClauseFormAsWritten(Atom(Predicate("P", [Var("x")], false))) == Err(MissingChildren)
  {
  }

  /** `change_clause_form_variable` on one term: every occurrence of variable `src` becomes
      variable `dst`. */
  function RenameVar(t: Term, src: string, dst: string): (r: Term)
    ensures Vars(r) == (Vars(t) - {src}) + (if src in Vars(t) then {dst} else {})
  {
    match t
    case Var(n) => if n == src then Var(dst) else t
    case Fn(n, xs) =>
      var rs := RenameVarArgs(xs, src, dst);
      assert Vars(Fn(n, rs)) == (Vars(t) - {src}) + (if src in Vars(t) then {dst} else {}) by {
        forall x | x in ArgsVars(rs) ensures x in (Vars(t) - {src}) + (if src in Vars(t) then {dst} else {}) {
          var i :| 0 <= i < |rs| && x in Vars(rs[i]);
          assert Vars(xs[i]) <= Vars(t);
        }
        forall x | x in (Vars(t) - {src}) + (if src in Vars(t) then {dst} else {}) ensures x in ArgsVars(rs) {
          if x in Vars(t) - {src} {
            var i :| 0 <= i < |xs| && x in Vars(xs[i]);
            assert x in Vars(rs[i]);
          } else {
            var i :| 0 <= i < |xs| && src in Vars(xs[i]);
            assert x in Vars(rs[i]);
          }
        }
      }
      Fn(n, rs)
  }

  function RenameVarArgs(xs: seq<Term>, src: string, dst: string): (r: seq<Term>)
    ensures |r| == |xs|
    ensures forall i :: 0 <= i < |xs| ==> r[i] == RenameVar(xs[i], src, dst)
  {
    if xs == [] then [] else [RenameVar(xs[0], src, dst)] + RenameVarArgs(xs[1..], src, dst)
  }

  /** Renaming to a name the term does not use can be undone. */
  lemma {:induction false} RenameVarRoundTrip(t: Term, src: string, dst: string)
    requires dst !in Vars(t)
    ensures RenameVar(RenameVar(t, src, dst), dst, src) == t
  {
    match t
    case Var(n) =>
    case Fn(n, xs) =>
      var rs := RenameVarArgs(xs, src, dst);
      forall i | 0 <= i < |xs| ensures RenameVar(rs[i], dst, src) == xs[i] {
        assert Vars(xs[i]) <= Vars(t);
        RenameVarRoundTrip(xs[i], src, dst);
      }
      assert RenameVarArgs(rs, dst, src) == xs;
  }

  /** The variables of a clause. */
  ghost function ClauseVars(c: Clause): set<string>
  {
    set i, x | 0 <= i < |c| && x in ArgsVars(c[i].args) :: x
  }

  /** A rewrite that touches only variable names: same length, and each literal keeps its
      predicate name, polarity and number of arguments. */
  predicate SameShape(a: Clause, b: Clause)
  {
    |a| == |b| && forall i :: 0 <= i < |a| ==> a[i].name == b[i].name && a[i].negated == b[i].negated && |a[i].args| == |b[i].args|
  }

  function RenamePredicate(p: Predicate, src: string, dst: string): (r: Predicate)
    ensures r.name == p.name && r.negated == p.negated && |r.args| == |p.args|
    ensures ArgsVars(r.args) == (ArgsVars(p.args) - {src}) + (if src in ArgsVars(p.args) then {dst} else {})
  {
    var rs := RenameVarArgs(p.args, src, dst);
    var t := RenameVar(Fn(p.name, p.args), src, dst);
    assert t == Fn(p.name, rs);
    p.(args := rs)
  }

  /** `change_clause_form_variable`: renames variable `src` to `dst` throughout a clause. */
  function RenameInClause(c: Clause, src: string, dst: string): (r: Clause)
    ensures SameShape(r, c)
  {
    seq(|c|, i requires 0 <= i < |c| => RenamePredicate(c[i], src, dst))
  }

  /** After the renaming, `src` is gone and `dst` is present exactly when `src` was. */
  lemma RenameInClauseVars(c: Clause, src: string, dst: string)
    ensures ClauseVars(RenameInClause(c, src, dst)) == (ClauseVars(c) - {src}) + (if src in ClauseVars(c) then {dst} else {})
  {
    var r := RenameInClause(c, src, dst);
    forall x | x in ClauseVars(r) ensures x in (ClauseVars(c) - {src}) + (if src in ClauseVars(c) then {dst} else {}) {
      var i :| 0 <= i < |r| && x in ArgsVars(r[i].args);
      if x != dst { assert x in ArgsVars(c[i].args); }
      else if x !in ClauseVars(c) - {src} { assert src in ArgsVars(c[i].args); }
    }
    forall x | x in (ClauseVars(c) - {src}) + (if src in ClauseVars(c) then {dst} else {}) ensures x in ClauseVars(r) {
      if x in ClauseVars(c) - {src} {
        var i :| 0 <= i < |c| && x in ArgsVars(c[i].args);
        assert x in ArgsVars(r[i].args);
      } else {
        var i :| 0 <= i < |c| && src in ArgsVars(c[i].args);
        assert x in ArgsVars(r[i].args);
      }
    }
  }

  /** Renaming a clause to a name it does not use can be undone, so the renaming keeps the
      clause's own sharing of variables. */
  lemma RenameInClauseRoundTrip(c: Clause, src: string, dst: string)
    requires dst !in ClauseVars(c)
    ensures RenameInClause(RenameInClause(c, src, dst), dst, src) == c
  {
    var r := RenameInClause(c, src, dst);
    forall i | 0 <= i < |c| ensures RenamePredicate(r[i], dst, src) == c[i] {
      forall j | 0 <= j < |c[i].args| ensures RenameVar(RenameVar(c[i].args[j], src, dst), dst, src) == c[i].args[j] {
        assert Vars(c[i].args[j]) <= ArgsVars(c[i].args);
        RenameVarRoundTrip(c[i].args[j], src, dst);
      }
      assert RenameVarArgs(RenameVarArgs(c[i].args, src, dst), dst, src) == c[i].args;
    }
  }

  /** `get_all_of_type(term, Variable)`: the variable names of a term, at any depth. */
  function TermVarList(t: Term): (r: seq<string>)
    ensures forall x :: x in r <==> x in Vars(t)
  {
    match t
    case Var(n) => [n]
    case Fn(_, xs) => ArgsVarList(xs)
  }

  function ArgsVarList(xs: seq<Term>): (r: seq<string>)
    ensures forall x :: x in r <==> x in ArgsVars(xs)
  {
    if xs == [] then []
    else
      ArgsVarsSplit(xs);
      TermVarList(xs[0]) + ArgsVarList(xs[1..])
  }

  /** `get_all_of_type(clause, Variable)`: the variable names of a clause. */
  function ClauseVarList(c: Clause): (r: seq<string>)
    ensures forall x :: x in r <==> x in ClauseVars(c)
  {
    if c == [] then []
    else
      var rest := ClauseVarList(c[1..]);
      assert forall i :: 0 < i < |c| ==> c[i] == c[1..][i - 1];
      assert forall x :: x in ClauseVars(c[1..]) ==> x in ClauseVars(c) by {
        forall x | x in ClauseVars(c[1..]) ensures x in ClauseVars(c) {
          var i :| 0 <= i < |c[1..]| && x in ArgsVars(c[1..][i].args);
          assert x in ArgsVars(c[i + 1].args);
        }
      }
      ArgVarsInClause(c, 0);
      ArgsVarList(c[0].args) + rest
  }

  lemma ArgVarsInClause(c: Clause, i: int)
    requires 0 <= i < |c|
    ensures ArgsVars(c[i].args) <= ClauseVars(c)
  {
  }

  /** The names of `vs` that are also in `used`, once each: the set of common variables. */
  function SharedNames(vs: seq<string>, used: seq<string>): (r: seq<string>)
    ensures NoDuplicates(r)
    ensures forall x :: x in r <==> x in vs && x in used
    ensures (forall x :: x in vs ==> x !in used) ==> r == []
  {
    if vs == [] then []
    else
      var rest := SharedNames(vs[1..], used);
      assert forall x :: x in vs <==> x == vs[0] || x in vs[1..];
      if vs[0] in used && vs[0] !in rest then [vs[0]] + rest else rest
  }

  /** The inner loop of `clause_form_standardize_apart`: each common variable in turn is
      renamed to a fresh variable name, which then counts as used. The second component
      lists the fresh names in the order they were drawn. */
  function RenameCommon(c: Clause, common: seq<string>, used: seq<string>): (r: (Clause, seq<string>))
    ensures |r.1| == |common|
    ensures NoDuplicates(r.1) && forall x :: x in r.1 ==> x !in used
    ensures SameShape(r.0, c)
    decreases |common|
  {
    if common == [] then (c, [])
    else
      var nv := NewVariable(used);
      var next := RenameCommon(RenameInClause(c, common[0], nv), common[1..], used + [nv]);
      NoDuplicatesCons(nv, next.1);
      SameShapeTrans(next.0, RenameInClause(c, common[0], nv), c);
      (next.0, [nv] + next.1)
  }

  lemma SameShapeTrans(a: Clause, b: Clause, c: Clause)
    requires SameShape(a, b) && SameShape(b, c)
    ensures SameShape(a, c)
  {
  }

  /** Undoes the renamings of `RenameCommon`, last one first. */
  function UndoRenames(d: Clause, srcs: seq<string>, dsts: seq<string>): Clause
    requires |srcs| == |dsts|
  {
    if srcs == [] then d
    else RenameInClause(UndoRenames(d, srcs[1..], dsts[1..]), dsts[0], srcs[0])
  }

  function Reversed(s: seq<string>): (r: seq<string>)
    ensures |r| == |s|
  {
    if s == [] then [] else Reversed(s[1..]) + [s[0]]
  }

  /** The last renaming `UndoRenames` lists is the first it applies. */
  lemma {:induction false} UndoRenamesLast(c: Clause, a: seq<string>, b: seq<string>, x: string, y: string)
    requires |a| == |b|
    ensures UndoRenames(c, a + [x], b + [y]) == UndoRenames(RenameInClause(c, y, x), a, b)
    decreases |a|
  {
    if a != [] {
      assert (a + [x])[1..] == a[1..] + [x] && (b + [y])[1..] == b[1..] + [y];
      UndoRenamesLast(c, a[1..], b[1..], x, y);
    } else {
      assert a + [x] == [x] && b + [y] == [y];
    }
  }

  /** `RenameCommon` is itself a sequence of renamings of the clause: the common variables
      to the drawn names, applied first to last. */
  lemma {:induction false} RenameCommonForward(c: Clause, common: seq<string>, used: seq<string>)
    ensures var r := RenameCommon(c, common, used);
            r.0 == UndoRenames(c, Reversed(r.1), Reversed(common))
    decreases |common|
  {
    if common != [] {
      var nv := NewVariable(used);
      var c1 := RenameInClause(c, common[0], nv);
      var next := RenameCommon(c1, common[1..], used + [nv]);
      RenameCommonForward(c1, common[1..], used + [nv]);
      assert RenameCommon(c, common, used) == (next.0, [nv] + next.1);
      assert ([nv] + next.1)[1..] == next.1;
      assert Reversed([nv] + next.1) == Reversed(next.1) + [nv];
      UndoRenamesLast(c, Reversed(next.1), Reversed(common[1..]), nv, common[0]);
    }
  }

  /** The side conditions under which `RenameCommon` is called: distinct common variables,
      all in the clause, and every variable of the clause already counted as used. */
  ghost predicate RenameReady(c: Clause, common: seq<string>, used: seq<string>)
  {
    && NoDuplicates(common)
    && (forall x :: x in common ==> x in ClauseVars(c))
    && (forall x :: x in ClauseVars(c) ==> x in used)
  }

  /** One renaming step keeps the side conditions for the rest of the common variables. */
  lemma RenameReadyStep(c: Clause, common: seq<string>, used: seq<string>)
    requires RenameReady(c, common, used) && common != []
    ensures NewVariable(used) !in ClauseVars(c)
    ensures RenameReady(RenameInClause(c, common[0], NewVariable(used)), common[1..], used + [NewVariable(used)])
  {
    var nv := NewVariable(used);
    var c1 := RenameInClause(c, common[0], nv);
    RenameInClauseVars(c, common[0], nv);
    forall x | x in common[1..] ensures x in ClauseVars(c1) {
      var k :| 0 <= k < |common[1..]| && common[1..][k] == x;
      assert common[k + 1] != common[0];
    }
  }

  /** The variables after the inner loop: the clause's own minus the common ones, plus the
      fresh names. */
  lemma {:induction false} RenameCommonVars(c: Clause, common: seq<string>, used: seq<string>)
    requires RenameReady(c, common, used)
    ensures var r := RenameCommon(c, common, used);
            forall x :: x in ClauseVars(r.0) <==> (x in ClauseVars(c) && x !in common) || x in r.1
    decreases |common|
  {
    if common != [] {
      var nv := NewVariable(used);
      var c1 := RenameInClause(c, common[0], nv);
      RenameReadyStep(c, common, used);
      RenameInClauseVars(c, common[0], nv);
      RenameCommonVars(c1, common[1..], used + [nv]);
      var next := RenameCommon(c1, common[1..], used + [nv]);
      VarsAfterStep(ClauseVars(c), ClauseVars(c1), ClauseVars(next.0), common, nv, next.1);
    }
  }

  /** The set bookkeeping of one step of `RenameCommonVars`: `v1` is `v` with `common[0]`
      renamed to `nv`, and `r` is `v1` with the rest of `common` renamed to `drawn`. */
  lemma VarsAfterStep(v: set<string>, v1: set<string>, r: set<string>, common: seq<string>, nv: string, drawn: seq<string>)
    requires common != [] && common[0] in v && nv !in v
    requires forall x :: x in common[1..] ==> x in v && x != common[0]
    requires v1 == (v - {common[0]}) + {nv}
    requires forall x :: x in r <==> (x in v1 && x !in common[1..]) || x in drawn
    ensures forall x :: x in r <==> (x in v && x !in common) || x in [nv] + drawn
  {
    assert forall x :: x in common <==> x == common[0] || x in common[1..];
  }

  /** Renaming the fresh names back, last first, restores the clause: the inner loop loses
      no distinction between variables. */
  lemma {:induction false} RenameCommonRoundTrip(c: Clause, common: seq<string>, used: seq<string>)
    requires RenameReady(c, common, used)
    ensures var r := RenameCommon(c, common, used);
            UndoRenames(r.0, common, r.1) == c
    decreases |common|
  {
    if common != [] {
      var nv := NewVariable(used);
      var c1 := RenameInClause(c, common[0], nv);
      RenameReadyStep(c, common, used);
      RenameCommonRoundTrip(c1, common[1..], used + [nv]);
      RenameInClauseRoundTrip(c, common[0], nv);
    }
  }

  /** One pass of the outer loop of `clause_form_standardize_apart`: the variables the clause
      shares with the names used so far are renamed apart, and the clause's variables and the
      fresh names join the used names. */
  function StandardizeClause(c: Clause, used: seq<string>): (r: (Clause, seq<string>))
    ensures SameShape(r.0, c)
    ensures forall x :: x in used ==> x in r.1
  {
    var vs := ClauseVarList(c);
    var seen := used + vs;
    var renamed := RenameCommon(c, SharedNames(vs, used), seen);
    (renamed.0, seen + renamed.1)
  }

  /** After one pass, the clause's variables, old and new, are used names, and the new ones
      avoid every name used before the pass. */
  lemma StandardizeClauseApart(c: Clause, used: seq<string>)
    ensures var r := StandardizeClause(c, used);
            && (forall x :: x in ClauseVars(c) ==> x in r.1)
            && (forall x :: x in ClauseVars(r.0) ==> x in r.1 && x !in used)
  {
    var vs := ClauseVarList(c);
    var common := SharedNames(vs, used);
    var seen := used + vs;
    RenameCommonVars(c, common, seen);
  }

  /** Some sequence of renamings takes `d` to `c`. */
  ghost predicate Restorable(d: Clause, c: Clause)
  {
    exists srcs, dsts :: |srcs| == |dsts| && UndoRenames(d, srcs, dsts) == c
  }

  /** `d` arose from `c` by renaming variables one-to-one: each is a sequence of renamings
      of the other, so no two variables were merged and none was split. */
  ghost predicate RenamedOnly(d: Clause, c: Clause)
  {
    Restorable(d, c) && Restorable(c, d)
  }

  /** One pass only renames: a sequence of renamings produces the result from the clause,
      and another restores the clause. */
  lemma StandardizeClauseUndoable(c: Clause, used: seq<string>)
    ensures Restorable(StandardizeClause(c, used).0, c)
    ensures Restorable(c, StandardizeClause(c, used).0)
    ensures RenamedOnly(StandardizeClause(c, used).0, c)
  {
    var vs := ClauseVarList(c);
    var common := SharedNames(vs, used);
    var seen := used + vs;
    var renamed := RenameCommon(c, common, seen);
    assert RenameReady(c, common, seen);
    RenameCommonRoundTrip(c, common, seen);
    assert StandardizeClause(c, used).0 == renamed.0;
    assert |common| == |renamed.1| && UndoRenames(renamed.0, common, renamed.1) == c;
    RenameCommonForward(c, common, seen);
    assert UndoRenames(c, Reversed(renamed.1), Reversed(common)) == renamed.0;
  }

  /** A clause that shares no variable with the used names passes through unchanged, and only
      its own variables join the used names. */
  lemma StandardizeClauseUnshared(c: Clause, used: seq<string>)
    requires forall x :: x in ClauseVars(c) ==> x !in used
    ensures var r := StandardizeClause(c, used);
            r.0 == c && forall x :: x in r.1 ==> x in used || x in ClauseVars(c)
  {
    var vs := ClauseVarList(c);
    var common := SharedNames(vs, used);
    assert RenameCommon(c, common, used + vs) == (c, []);
  }

  /** No two clauses of the list share a variable. */
  ghost predicate VariablesApart(cls: seq<Clause>)
  {
    forall i, j :: 0 <= i < j < |cls| ==> ClauseVars(cls[i]) !! ClauseVars(cls[j])
  }

  /** Every variable of the clauses is among the names `used`. */
  ghost predicate AllUsed(cls: seq<Clause>, used: seq<string>)
  {
    forall k, x :: 0 <= k < |cls| && x in ClauseVars(cls[k]) ==> x in used
  }

  /** A clause whose variables avoid every used name can join clauses kept apart. */
  lemma ApartExtend(out: seq<Clause>, d: Clause, used: seq<string>)
    requires VariablesApart(out) && AllUsed(out, used)
    requires forall x :: x in ClauseVars(d) ==> x !in used
    ensures VariablesApart(out + [d])
  {
    var o := out + [d];
    forall i, j | 0 <= i < j < |o| ensures ClauseVars(o[i]) !! ClauseVars(o[j]) {
      if j == |out| {
        assert o[i] == out[i];
      } else {
        assert o[i] == out[i] && o[j] == out[j];
      }
    }
  }

  /** In a list whose clauses are already apart, each clause avoids the variables of all the
      clauses before it. */
  lemma ApartPrefix(cls: seq<Clause>, i: int, used: seq<string>)
    requires VariablesApart(cls) && 0 <= i < |cls|
    requires forall x :: x in used ==> exists k :: 0 <= k < i && x in ClauseVars(cls[k])
    ensures forall x :: x in ClauseVars(cls[i]) ==> x !in used
  {
  }

  /** What holds after the first `i` clauses of `cls` have been standardized into `out`, with
      `used` the names in use. */
  ghost predicate ApartSoFar(cls: seq<Clause>, i: nat, out: seq<Clause>, used: seq<string>)
  {
    && i <= |cls| && |out| == i
    && (i == 0 ==> used == [])
    && (forall k :: 0 <= k < i ==> SameShape(out[k], cls[k]) && RenamedOnly(out[k], cls[k]))
    && AllUsed(out, used)
    && VariablesApart(out)
    && (i > 0 ==> out[0] == cls[0])
    && (VariablesApart(cls) ==> out == cls[..i] && forall x :: x in used ==> exists k :: 0 <= k < i && x in ClauseVars(cls[k]))
  }

  /** Standardizing the next clause keeps `ApartSoFar`. */
  lemma ApartSoFarStep(cls: seq<Clause>, i: nat, out: seq<Clause>, used: seq<string>)
    requires ApartSoFar(cls, i, out, used) && i < |cls|
    ensures var step := StandardizeClause(cls[i], used);
            ApartSoFar(cls, i + 1, out + [step.0], step.1)
  {
    var step := StandardizeClause(cls[i], used);
    var o := out + [step.0];
    StepRestorable(cls, i, out, used);
    StepApart(cls, i, out, used);
    StepFirst(cls, i, out, used);
    StepUnshared(cls, i, out, used);
  }

  lemma StepRestorable(cls: seq<Clause>, i: nat, out: seq<Clause>, used: seq<string>)
    requires ApartSoFar(cls, i, out, used) && i < |cls|
    ensures var o := out + [StandardizeClause(cls[i], used).0];
            forall k :: 0 <= k <= i ==> SameShape(o[k], cls[k]) && RenamedOnly(o[k], cls[k])
  {
    var o := out + [StandardizeClause(cls[i], used).0];
    assert forall k :: 0 <= k < i ==> o[k] == out[k];
    StandardizeClauseUndoable(cls[i], used);
  }

  lemma StepApart(cls: seq<Clause>, i: nat, out: seq<Clause>, used: seq<string>)
    requires ApartSoFar(cls, i, out, used) && i < |cls|
    ensures var step := StandardizeClause(cls[i], used);
            AllUsed(out + [step.0], step.1) && VariablesApart(out + [step.0])
  {
    var step := StandardizeClause(cls[i], used);
    var o := out + [step.0];
    StandardizeClauseApart(cls[i], used);
    assert forall k :: 0 <= k < i ==> o[k] == out[k];
    assert AllUsed(o, step.1);
    ApartExtend(out, step.0, used);
  }

  lemma StepFirst(cls: seq<Clause>, i: nat, out: seq<Clause>, used: seq<string>)
    requires ApartSoFar(cls, i, out, used) && i < |cls|
    ensures (out + [StandardizeClause(cls[i], used).0])[0] == cls[0]
  {
    if i == 0 {
      StandardizeClauseUnshared(cls[i], used);
    } else {
      assert (out + [StandardizeClause(cls[i], used).0])[0] == out[0];
    }
  }

  lemma StepUnshared(cls: seq<Clause>, i: nat, out: seq<Clause>, used: seq<string>)
    requires ApartSoFar(cls, i, out, used) && i < |cls|
    ensures var step := StandardizeClause(cls[i], used);
            VariablesApart(cls) ==>
              && out + [step.0] == cls[..i + 1]
              && forall x :: x in step.1 ==> exists k :: 0 <= k < i + 1 && x in ClauseVars(cls[k])
  {
    if VariablesApart(cls) {
      StepUnsharedUnchanged(cls, i, out, used);
      var step := StandardizeClause(cls[i], used);
      StepUsedFrom(cls, i, used, step.1);
    }
  }

  /** When the clauses are already apart, the next clause shares nothing with the used names
      and passes through unchanged. */
  lemma StepUnsharedUnchanged(cls: seq<Clause>, i: nat, out: seq<Clause>, used: seq<string>)
    requires i < |cls| && VariablesApart(cls) && out == cls[..i]
    requires forall x :: x in used ==> exists k :: 0 <= k < i && x in ClauseVars(cls[k])
    ensures var step := StandardizeClause(cls[i], used);
            && out + [step.0] == cls[..i + 1]
            && forall x :: x in step.1 ==> x in used || x in ClauseVars(cls[i])
  {
    ApartPrefix(cls, i, used);
    StandardizeClauseUnshared(cls[i], used);
    assert cls[..i + 1] == cls[..i] + [cls[i]];
  }

  /** The names in use after the step come from the first `i + 1` clauses. */
  lemma StepUsedFrom(cls: seq<Clause>, i: nat, used: seq<string>, next: seq<string>)
    requires i < |cls|
    requires forall x :: x in used ==> exists k :: 0 <= k < i && x in ClauseVars(cls[k])
    requires forall x :: x in next ==> x in used || x in ClauseVars(cls[i])
    ensures forall x :: x in next ==> exists k :: 0 <= k < i + 1 && x in ClauseVars(cls[k])
  {
    forall x | x in next ensures exists k :: 0 <= k < i + 1 && x in ClauseVars(cls[k]) {
      if x in used {
        var k :| 0 <= k < i && x in ClauseVars(cls[k]);
        assert 0 <= k < i + 1;
      } else {
        assert x in ClauseVars(cls[i]);
      }
    }
  }

  /** `clause_form_standardize_apart`: each clause, in order, has the variables it shares with
      earlier clauses (or with names drawn for them) renamed to fresh names, so that no two
      resulting clauses share a variable. */
  method StandardizeClausesApart(cls: seq<Clause>) returns (out: seq<Clause>)
    ensures |out| == |cls|
    ensures forall i :: 0 <= i < |cls| ==> SameShape(out[i], cls[i])
    ensures VariablesApart(out)
    ensures |cls| > 0 ==> out[0] == cls[0]
    ensures VariablesApart(cls) ==> out == cls
    ensures forall i :: 0 <= i < |cls| ==> Restorable(out[i], cls[i]) && Restorable(cls[i], out[i])
  {
    var used: seq<string> := [];
    out := [];
    for i := 0 to |cls|
      invariant ApartSoFar(cls, i, out, used)
    {
      ApartSoFarStep(cls, i, out, used);
      var step := StandardizeClause(cls[i], used);
      used := step.1;
      out := out + [step.0];
    }
    assert cls[..|cls|] == cls;
  }
}
