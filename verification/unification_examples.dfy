/** The worked examples of unification, checked on concrete terms. */
module UnificationExamples {
  import opened Common
  import opened Terms
  import opened Unification

  /** f(x) and f(a), with `a` a variable, unify by binding x to a. */
  lemma SameFunctor()
    ensures Unify(Fn("f", [Var("x")]), Fn("f", [Var("a")]), Some([]))
         == Some([Binding("x", Var("a"))])
  {
    assert Dom([]) == {};
  }

  /** The intended outcome for f(x) against g(a): the functors differ, so the terms do not
      unify and the call reports a failure. */
  lemma FunctorClash()
    ensures Unify(Fn("f", [Var("x")]), Fn("g", [Var("a")]), Some([])) == None
  {
  }

  /** As written, the same call raises `NameError` instead of returning `False`. */
  lemma FunctorClashAsWritten()
    ensures UnifyAsWritten(Fn("f", [Var("x")]), Fn("g", [Var("a")]), Some([])) == Err(NameError)
  {
  }

  /** The error also escapes from inside an argument list: h(f(x)) against h(g(a)). */
  lemma NestedClashAsWritten()
    ensures UnifyAsWritten(Fn("h", [Fn("f", [Var("x")])]), Fn("h", [Fn("g", [Var("a")])]), Some([]))
         == Err(NameError)
  {
    var xs, ys := [Fn("f", [Var("x")])], [Fn("g", [Var("a")])];
    assert Raises(xs[0], ys[0], Some([]));
    assert RaisesArgs(xs, ys, Some([]));
  }

  /** An occurs-check failure does return `False`: x against f(x). */
  lemma OccursFailureAsWritten()
    ensures UnifyAsWritten(Var("x"), Fn("f", [Var("x")]), Some([])) == Ok(None)
  {
    assert Dom([]) == {};
    assert IndexOf([], 0, "x") == 0;
    assert Substitute([], Fn("f", [Var("x")])) == Fn("f", [Var("x")]);
    assert !RaisesVariable("x", Fn("f", [Var("x")]), []);
  }

  /** As written, f(y, x) and f(x, y) do not unify, although binding y to x makes them
      equal: after `[x/y]`, the second pair unifies x with y, `substitute` turns y into x,
      and the occurs-check finds x in x. */
  lemma SwappedVariables()
    ensures Unify(Fn("f", [Var("y"), Var("x")]), Fn("f", [Var("x"), Var("y")]), Some([])) == None
  {
    var m1 := [Binding("y", Var("x"))];
    SwappedFirstPair(false);
    assert IndexOf(m1, 0, "x") == 1;
    assert Substitute(m1, Var("y")) == Var("x") by {
      assert Occurs("y", Var("y"));
      assert SubstituteFrom(m1, 1, Var("x")) == Var("x");
    }
    assert UnifyVariable("x", Var("y"), m1) == None;
    var xs, ys := [Var("y"), Var("x")], [Var("x"), Var("y")];
    assert xs[1..] == [Var("x")] && ys[1..] == [Var("y")];
    assert UnifyArgs(xs, ys, Some([])) == UnifyArgs([Var("x")], [Var("y")], Some(m1));
  }

  /** With the corrected `unify_variable`, the same call returns `[x/y]`. */
  lemma SwappedVariablesCorrected()
    ensures Unify(Fn("f", [Var("y"), Var("x")]), Fn("f", [Var("x"), Var("y")]), Some([]), true)
         == Some([Binding("y", Var("x"))])
  {
    var m1 := [Binding("y", Var("x"))];
    SwappedFirstPair(true);
    assert IndexOf(m1, 0, "x") == 1;
    assert Substitute(m1, Var("y")) == Var("x") by {
      assert Occurs("y", Var("y"));
      assert SubstituteFrom(m1, 1, Var("x")) == Var("x");
    }
    assert UnifyVariable("x", Var("y"), m1, true) == Some(m1);
    var xs, ys := [Var("y"), Var("x")], [Var("x"), Var("y")];
    assert xs[1..] == [Var("x")] && ys[1..] == [Var("y")];
    assert UnifyArgs(xs, ys, Some([]), true) == UnifyArgs([Var("x")], [Var("y")], Some(m1), true);
  }

  lemma SwappedFirstPair(corrected: bool)
    ensures Unify(Var("y"), Var("x"), Some([]), corrected) == Some([Binding("y", Var("x"))])
  {
    assert Dom([]) == {};
  }

  /** f(x, x) and f(a, b), with `a` and `b` variables: x is bound to a, then x's replacement
      a is unified with b, which binds a. The call succeeds. */
  lemma RepeatedVariable()
    ensures Unify(Fn("f", [Var("x"), Var("x")]), Fn("f", [Var("a"), Var("b")]), Some([]))
         == Some([Binding("x", Var("a")), Binding("a", Var("b"))])
  {
    var m1 := [Binding("x", Var("a"))];
    var m2 := [Binding("x", Var("a")), Binding("a", Var("b"))];
    BindX();
    BindA();
    var xs, ys := [Var("x"), Var("x")], [Var("a"), Var("b")];
    assert xs[1..] == [Var("x")] && ys[1..] == [Var("b")];
    assert UnifyArgs(xs, ys, Some([])) == UnifyArgs([Var("x")], [Var("b")], Some(m1));
    assert UnifyArgs([Var("x")], [Var("b")], Some(m1)) == UnifyArgs([], [], Some(m2));
  }

  lemma BindX()
    ensures Unify(Var("x"), Var("a"), Some([])) == Some([Binding("x", Var("a"))])
  {
    assert Dom([]) == {};
  }

  lemma BindA()
    ensures Unify(Var("x"), Var("b"), Some([Binding("x", Var("a"))]))
         == Some([Binding("x", Var("a")), Binding("a", Var("b"))])
  {
    var m1 := [Binding("x", Var("a"))];
    assert IndexOf(m1, 0, "x") == 0;
    assert Dom(m1) == {"x"};
    assert Substitute(m1, Var("b")) == Var("b");
    assert UnifyVariable("a", Var("b"), m1) == Some(m1 + [Binding("a", Var("b"))]);
    assert Unify(Var("a"), Var("b"), Some(m1)) == UnifyVariable("a", Var("b"), m1);
    assert UnifyVariable("x", Var("b"), m1) == Unify(Var("a"), Var("b"), Some(m1));
    assert m1 + [Binding("a", Var("b"))] == [Binding("x", Var("a")), Binding("a", Var("b"))];
  }
}