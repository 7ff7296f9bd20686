/** Worked examples of the clause-form passes on concrete formulas, including the inputs on
    which the passes as written part from what they evidently intend. */
module PipelineExamples {
  import opened Common
  import opened Terms
  import opened Formulas
  import opened Names
  import opened Standardize
  import opened AlphaEquivalence
  import opened Skolem
  import opened Clauses

  function P(args: seq<Term>): Predicate { Predicate("P", args, false) }
  function Q(args: seq<Term>): Predicate { Predicate("Q", args, false) }
  function R(args: seq<Term>): Predicate { Predicate("R", args, false) }

  /** Two quantifiers binding the same name: the second is renamed to `z`. */
  lemma StandardizeTwoBinders()
    ensures Standardize.Standardize(And([ForAll("x", Atom(P([Var("x")])), false), ForAll("x", Atom(Q([Var("x")])), false)], false))
         == Ok(And([ForAll("x", Atom(P([Var("x")])), false), ForAll("z", Atom(Q([Var("z")])), false)], false))
  {
    var e: map<string, string> := map[];
    var f1, f2 := ForAll("x", Atom(P([Var("x")])), false), ForAll("x", Atom(Q([Var("x")])), false);
    var g2 := ForAll("z", Atom(Q([Var("z")])), false);
    StandardizeUnary("P", "x", []);
    assert [] + ["x"] == ["x"];
    assert StandardizeApart(f1, e, []) == Ok((f1, ["x"]));
    NewVariableFirst(["x"]);
    StandardizeUnaryAll("Q", "x", ["x"]);
    assert ["x"] + ["z"] == ["x", "z"];
    StandardizeTwoConjuncts(f1, f1, f2, g2, [], ["x"], ["x", "z"]);
  }

  /** A conjunction of two formulas is standardized one conjunct after the other. */
  lemma StandardizeTwoConjuncts(f1: Formula, g1: Formula, f2: Formula, g2: Formula, used: seq<string>, mid: seq<string>, out: seq<string>)
    requires StandardizeApart(f1, map[], used) == Ok((g1, mid))
    requires StandardizeAll([f2], map[], mid) == Ok(([g2], out))
    ensures StandardizeApart(And([f1, f2], false), map[], used) == Ok((And([g1, g2], false), out))
  {
    var e: map<string, string> := map[];
    assert [f1, f2][1..] == [f2] && [g1] + [g2] == [g1, g2];
    assert StandardizeAll([f1, f2], e, used) == Ok(([g1, g2], out));
    assert StandardizeJunction(And([f1, f2], false), e, used) == Ok((And([g1, g2], false), out));
  }

  /** `StandardizeUnary` as the last child of a conjunction. */
  lemma StandardizeUnaryAll(name: string, x: string, used: seq<string>)
    ensures var y := if x !in used then x else NewVariable(used);
            StandardizeAll([ForAll(x, Atom(Predicate(name, [Var(x)], false)), false)], map[], used)
            == Ok(([ForAll(y, Atom(Predicate(name, [Var(y)], false)), false)], used + [y]))
  {
    var y := if x !in used then x else NewVariable(used);
    var e: map<string, string> := map[];
    var f, g := ForAll(x, Atom(Predicate(name, [Var(x)], false)), false), ForAll(y, Atom(Predicate(name, [Var(y)], false)), false);
    StandardizeUnary(name, x, used);
    assert StandardizeAll([], e, used + [y]) == Ok(([], used + [y]));
    assert [f][1..] == [] && [g] + [] == [g];
  }

  /** One universal over a one-place predicate of its own variable, at the top level: the
      variable keeps its name if unused and is otherwise renamed to the fresh variable. */
  lemma StandardizeUnary(name: string, x: string, used: seq<string>)
    ensures var y := if x !in used then x else NewVariable(used);
            StandardizeApart(ForAll(x, Atom(Predicate(name, [Var(x)], false)), false), map[], used)
            == Ok((ForAll(y, Atom(Predicate(name, [Var(y)], false)), false), used + [y]))
  {
    var y := if x !in used then x else NewVariable(used);
    var scope := map[x := y];
    var e: map<string, string> := map[];
    assert e[x := y] == scope;
    assert [Var(x)][1..] == [];
    assert RenameTerm(Var(x), scope) == Ok(Var(y));
    assert RenameArgs([], scope) == Ok([]);
    assert [Var(y)] + [] == [Var(y)];
    assert RenameArgs([Var(x)], scope) == Ok([Var(y)]);
    var p := Predicate(name, [Var(x)], false);
    assert StandardizeApart(Atom(p), scope, used + [y]) == Ok((Atom(p.(args := [Var(y)])), used + [y]));
    assert StandardizeBody(x, Atom(p), e, used) == Ok((y, Atom(p.(args := [Var(y)])), used + [y]));
    assert StandardizeQuantifier(ForAll(x, Atom(p), false), e, used)
        == Ok((ForAll(y, Atom(p.(args := [Var(y)])), false), used + [y]));
  }

  /** Scope capture as written: in `for all x, (for all x, P(x)) and Q(x)` the inner
      quantifier is renamed to `z`, and its scope entry outlives it, so the `x` of `Q(x)`,
      bound by the outer quantifier, becomes `z` as well. The result is not alpha-equivalent
      to the input; the intended pass gives `Q(x)`. */
  lemma SharedScopeCapture()
    ensures StandardizeApartAsWritten(CaptureInput(), map[], []).Ok?
    ensures StandardizeApartAsWritten(CaptureInput(), map[], []).value.0 == CaptureWritten()
    ensures !AlphaEquivalent(CaptureInput(), CaptureWritten(), [], [])
    ensures Standardize.Standardize(CaptureInput())
         == Ok(ForAll("x", And([ForAll("z", Atom(P([Var("z")])), false), Atom(Q([Var("x")]))], false), false))
  {
    CaptureAsWritten();
    CaptureNotAlpha();
    CaptureIntended();
  }

  lemma CaptureNotAlpha()
    ensures !AlphaEquivalent(CaptureInput(), CaptureWritten(), [], [])
  {
    var ctx := ["x"];
    assert [] + ctx == ctx && ["x"] + [] == ctx;
    assert Depth(ctx, "x") == Some(0) && Depth(ctx, "z") == None;
    assert !TermAlpha(Var("x"), Var("z"), ctx, ctx);
    var qx, qz := Atom(Q([Var("x")])), Atom(Q([Var("z")]));
    assert !AlphaEquivalent(qx, qz, ctx, ctx) by {
      assert qx.pred.args[0] == Var("x") && qz.pred.args[0] == Var("z");
    }
    var inner := And([ForAll("x", Atom(P([Var("x")])), false), qx], false);
    var outer := And([ForAll("z", Atom(P([Var("z")])), false), qz], false);
    assert inner.children[1] == qx && outer.children[1] == qz;
    assert !AlphaEquivalent(inner, outer, ctx, ctx);
    assert CaptureInput() == ForAll("x", inner, false) && CaptureWritten() == ForAll("x", outer, false);
  }

  function CaptureWritten(): Formula
  {
    ForAll("x", And([ForAll("z", Atom(P([Var("z")])), false), Atom(Q([Var("z")]))], false), false)
  }

  lemma CaptureAsWritten()
    ensures StandardizeApartAsWritten(CaptureInput(), map[], [])
         == Ok((CaptureWritten(), map["x" := "z"], ["x", "z"]))
  {
    var e: map<string, string> := map[];
    assert e["x" := "x"] == map["x" := "x"];
    assert [] + ["x"] == ["x"];
    var px, qx := Atom(P([Var("x")])), Atom(Q([Var("x")]));
    var pz, qz := Atom(P([Var("z")])), Atom(Q([Var("z")]));
    var cs := [ForAll("x", px, false), qx];
    CaptureConjuncts();
    assert StandardizeBodyAsWritten("x", And(cs, false), e, [])
        == Ok(("x", And([ForAll("z", pz, false), qz], false), map["x" := "z"], ["x", "z"]));
  }

  /** The two conjuncts under the outer `x`: the inner quantifier's entry `x -> z` replaces
      the outer one and stays for `Q(x)`. */
  lemma CaptureConjuncts()
    ensures StandardizeAllAsWritten([ForAll("x", Atom(P([Var("x")])), false), Atom(Q([Var("x")]))], map["x" := "x"], ["x"])
         == Ok(([ForAll("z", Atom(P([Var("z")])), false), Atom(Q([Var("z")]))], map["x" := "z"], ["x", "z"]))
  {
    var s1, s2 := map["x" := "x"], map["x" := "z"];
    var px, qx := Atom(P([Var("x")])), Atom(Q([Var("x")]));
    var pz, qz := Atom(P([Var("z")])), Atom(Q([Var("z")]));
    CaptureQuantifier();
    RenameSingle(s2, "x", "z");
    assert StandardizeApartAsWritten(qx, s2, ["x", "z"]) == Ok((qz, s2, ["x", "z"]));
    var cs := [ForAll("x", px, false), qx];
    assert cs[1..] == [qx] && [qx][1..] == [];
    assert StandardizeAllAsWritten([], s2, ["x", "z"]) == Ok(([], s2, ["x", "z"]));
    assert [qz] + [] == [qz];
    assert StandardizeAllAsWritten([qx], s2, ["x", "z"]) == Ok(([qz], s2, ["x", "z"]));
    assert [ForAll("z", pz, false)] + [qz] == [ForAll("z", pz, false), qz];
  }

  lemma CaptureQuantifier()
    ensures StandardizeApartAsWritten(ForAll("x", Atom(P([Var("x")])), false), map["x" := "x"], ["x"])
         == Ok((ForAll("z", Atom(P([Var("z")])), false), map["x" := "z"], ["x", "z"]))
  {
    var s1, s2 := map["x" := "x"], map["x" := "z"];
    assert s1["x" := "z"] == s2;
    NewVariableFirst(["x"]);
    assert ["x"] + ["z"] == ["x", "z"];
    var px, pz := Atom(P([Var("x")])), Atom(P([Var("z")]));
    RenameSingle(s2, "x", "z");
    assert StandardizeApartAsWritten(px, s2, ["x", "z"]) == Ok((pz, s2, ["x", "z"]));
    assert StandardizeBodyAsWritten("x", px, s1, ["x"]) == Ok(("z", pz, s2, ["x", "z"]));
  }

  lemma CaptureIntended()
    ensures Standardize.Standardize(CaptureInput())
         == Ok(ForAll("x", And([ForAll("z", Atom(P([Var("z")])), false), Atom(Q([Var("x")]))], false), false))
  {
    var e: map<string, string> := map[];
    var s1 := map["x" := "x"];
    assert e["x" := "x"] == s1;
    assert [] + ["x"] == ["x"];
    var px, qx := Atom(P([Var("x")])), Atom(Q([Var("x")]));
    var pz := Atom(P([Var("z")]));
    var cs := [ForAll("x", px, false), qx];
    CaptureIntendedConjuncts();
    assert StandardizeBody("x", And(cs, false), e, []) == Ok(("x", And([ForAll("z", pz, false), qx], false), ["x", "z"]));
  }

  lemma CaptureIntendedConjuncts()
    ensures StandardizeAll([ForAll("x", Atom(P([Var("x")])), false), Atom(Q([Var("x")]))], map["x" := "x"], ["x"])
         == Ok(([ForAll("z", Atom(P([Var("z")])), false), Atom(Q([Var("x")]))], ["x", "z"]))
  {
    var s1 := map["x" := "x"];
    assert ["x"] + ["z"] == ["x", "z"];
    var px, qx := Atom(P([Var("x")])), Atom(Q([Var("x")]));
    var pz := Atom(P([Var("z")]));
    NewVariableFirst(["x"]);
    StandardizeUnary("P", "x", ["x"]);
    StandardizeUnaryIn("P", "x", ["x"], s1);
    RenameSingle(s1, "x", "x");
    assert StandardizeApart(qx, s1, ["x", "z"]) == Ok((qx, ["x", "z"]));
    var cs := [ForAll("x", px, false), qx];
    assert cs[1..] == [qx] && [qx][1..] == [];
    assert StandardizeAll([], s1, ["x", "z"]) == Ok(([], ["x", "z"]));
    assert [qx] + [] == [qx];
    assert StandardizeAll([qx], s1, ["x", "z"]) == Ok(([qx], ["x", "z"]));
    assert [ForAll("z", pz, false)] + [qx] == [ForAll("z", pz, false), qx];
  }

  function CaptureInput(): Formula
  {
    ForAll("x", And([ForAll("x", Atom(P([Var("x")])), false), Atom(Q([Var("x")]))], false), false)
  }

  /** Renaming the one-variable argument list `[x]` through a scope that maps `x` to `y`. */
  lemma RenameSingle(scope: map<string, string>, x: string, y: string)
    requires x in scope && scope[x] == y
    ensures RenameArgs([Var(x)], scope) == Ok([Var(y)])
  {
    assert [Var(x)][1..] == [];
    assert RenameTerm(Var(x), scope) == Ok(Var(y));
    assert [Var(y)] + [] == [Var(y)];
  }

  /** `StandardizeUnary` does not depend on the scope it starts from. */
  lemma StandardizeUnaryIn(name: string, x: string, used: seq<string>, scope: map<string, string>)
    ensures StandardizeApart(ForAll(x, Atom(Predicate(name, [Var(x)], false)), false), scope, used)
         == StandardizeApart(ForAll(x, Atom(Predicate(name, [Var(x)], false)), false), map[], used)
  {
    var a := Atom(Predicate(name, [Var(x)], false));
    StandardizeUnaryBody(name, x, used, scope);
    assert StandardizeBody(x, a, scope, used) == StandardizeBody(x, a, map[], used);
  }

  lemma StandardizeUnaryBody(name: string, x: string, used: seq<string>, scope: map<string, string>)
    ensures StandardizeBody(x, Atom(Predicate(name, [Var(x)], false)), scope, used)
         == StandardizeBody(x, Atom(Predicate(name, [Var(x)], false)), map[], used)
  {
    var y := if x !in used then x else NewVariable(used);
    var e: map<string, string> := map[];
    StandardizeUnaryAtom(name, x, y, used, scope[x := y]);
    StandardizeUnaryAtom(name, x, y, used, e[x := y]);
  }

  lemma StandardizeUnaryAtom(name: string, x: string, y: string, used: seq<string>, s: map<string, string>)
    requires x in s && s[x] == y
    ensures StandardizeApart(Atom(Predicate(name, [Var(x)], false)), s, used + [y])
         == Ok((Atom(Predicate(name, [Var(y)], false)), used + [y]))
  {
    RenameSingle(s, x, y);
  }

  /** Scope leak as written: in `(for all x, P(x)) and Q(x)` the `x` of `Q(x)` is free, but
      the entry the quantifier made is still there, so the pass succeeds. The intended pass
      reports the unbound variable. */
  lemma SharedScopeLeak()
    ensures StandardizeApartAsWritten(And([ForAll("x", Atom(P([Var("x")])), false), Atom(Q([Var("x")]))], false), map[], [])
         == Ok((And([ForAll("x", Atom(P([Var("x")])), false), Atom(Q([Var("x")]))], false), map["x" := "x"], ["x"]))
    ensures Standardize.Standardize(And([ForAll("x", Atom(P([Var("x")])), false), Atom(Q([Var("x")]))], false))
         == Err(UnboundVariable("x"))
  {
    var e: map<string, string> := map[];
    var s1 := map["x" := "x"];
    assert e["x" := "x"] == s1;
    assert [] + ["x"] == ["x"];
    var px, qx := Atom(P([Var("x")])), Atom(Q([Var("x")]));
    RenameSingle(s1, "x", "x");
    assert StandardizeApartAsWritten(px, s1, ["x"]) == Ok((px, s1, ["x"]));
    assert StandardizeApartAsWritten(ForAll("x", px, false), e, []) == Ok((ForAll("x", px, false), s1, ["x"]));
    var cs := [ForAll("x", px, false), qx];
    assert cs[1..] == [qx] && [qx][1..] == [];
    assert StandardizeAllAsWritten([], s1, ["x"]) == Ok(([], s1, ["x"]));
    assert [qx] + [] == [qx];
    assert StandardizeAllAsWritten([qx], s1, ["x"]) == Ok(([qx], s1, ["x"]));
    assert [ForAll("x", px, false)] + [qx] == cs;
    assert StandardizeAllAsWritten(cs, e, []) == Ok((cs, s1, ["x"]));
    // the intended pass
    assert [Var("x")][1..] == [];
    assert RenameArgs([Var("x")], e) == Err(UnboundVariable("x"));
    StandardizeUnary("P", "x", []);
    assert StandardizeAll([qx], e, ["x"]) == Err(UnboundVariable("x"));
    assert StandardizeAll(cs, e, []) == Err(UnboundVariable("x"));
  }

  /** A free variable has no scope entry: standardizing fails, naming it. */
  lemma StandardizeFreeVariable()
    ensures Standardize.Standardize(Atom(P([Var("x")]))).Err?
  {
  }

  /** `for all x there is y with R(x, y)` becomes `for all x, R(x, a(x))`, and dropping the
      universal leaves `R(x, a(x))`. */
  lemma SkolemizeDependent()
    ensures Skolemize(ForAll("x", Exists("y", Atom(R([Var("x"), Var("y")])), false), false))
         == ForAll("x", Atom(R([Var("x"), Fn("a", [Var("x")])])), false)
    ensures DiscardForAll(ForAll("x", Atom(R([Var("x"), Fn("a", [Var("x")])])), false))
         == Atom(R([Var("x"), Fn("a", [Var("x")])]))
  {
    var body := Atom(R([Var("x"), Var("y")]));
    var f := ForAll("x", Exists("y", body, false), false);
    assert FunctionNames(f) == [];
    SkolemizeDependentBody();
    assert [] + ["x"] == ["x"];
    assert SkolemizeWith(f, map[], [], []).0 == ForAll("x", Atom(R([Var("x"), Fn("a", [Var("x")])])), false);
  }

  /** Under the universal `x`, `there is y with R(x, y)` becomes `R(x, a(x))`. */
  lemma SkolemizeDependentBody()
    ensures SkolemizeWith(Exists("y", Atom(R([Var("x"), Var("y")])), false), map[], ["x"], []).0
         == Atom(R([Var("x"), Fn("a", [Var("x")])]))
  {
    var body := Atom(R([Var("x"), Var("y")]));
    var out := Atom(R([Var("x"), Fn("a", [Var("x")])]));
    NewConstantFirst([]);
    SkolemizeBinary("R", "x", "y", "a", ["x"], ["a"]);
    assert VarTerms(["x"]) == [Var("x")];
    var e: map<string, Entry> := map[];
    assert e["y" := Entry("a", ["x"])] == map["y" := Entry("a", ["x"])];
    assert [] + ["a"] == ["a"];
    assert SkolemizeWith(body, e["y" := Entry("a", ["x"])], ["x"], [] + ["a"]).0 == out;
    assert SkolemizeExists("y", body, e, ["x"], []).0 == out;
  }

  /** `R(x, y)` with `y` standing for the Skolem term `c(us)`. */
  lemma SkolemizeBinary(name: string, x: string, y: string, c: string, us: seq<string>, used: seq<string>)
    requires x != y
    ensures SkolemizeWith(Atom(Predicate(name, [Var(x), Var(y)], false)), map[y := Entry(c, us)], us, used).0
         == Atom(Predicate(name, [Var(x), Fn(c, VarTerms(us))], false))
  {
    var sk := map[y := Entry(c, us)];
    var e: map<string, Entry> := map[];
    assert e[y := Entry(c, us)] == sk;
    assert SkolemizeTerm(Var(x), sk) == Var(x);
    assert SkolemizeTerm(Var(y), sk) == Fn(c, VarTerms(us));
    assert SkolemizeArgs([Var(x), Var(y)], sk) == [Var(x), Fn(c, VarTerms(us))];
  }

  /** The skolemization clash as written: in `there is y with P(a, y)` the constant `a` is
      not collected, so the Skolem constant for `y` is also `a`, and the two become one. The
      intended pass collects `a` and picks `b`. */
  lemma SkolemNameClash()
    ensures SkolemizeAsWritten(Exists("y", Atom(P([Fn("a", []), Var("y")])), false))
         == Atom(P([Fn("a", []), Fn("a", [])]))
    ensures Skolemize(Exists("y", Atom(P([Fn("a", []), Var("y")])), false))
         == Atom(P([Fn("a", []), Fn("b", [])]))
  {
    var f := Exists("y", Atom(P([Fn("a", []), Var("y")])), false);
    assert ShallowFunctionNames(f) == [];
    assert FunctionNames(f) == ["a"];
    SkolemizeConstantArgument([], "a");
    SkolemizeConstantArgument(["a"], "b");
  }

  /** The same clash without relying on how quantifiers report their children: in
      `P(f(a)) and there is y with Q(y)` the as-written walk collects `f` but not the `a`
      nested inside it, so `y` becomes `a`; the corrected pass avoids both and picks `b`. */
  lemma SkolemNameClashNested()
    ensures SkolemizeAsWritten(And([Atom(P([Fn("f", [Fn("a", [])])])), Exists("y", Atom(Q([Var("y")])), false)], false))
         == And([Atom(P([Fn("f", [Fn("a", [])])])), Atom(Q([Fn("a", [])]))], false)
    ensures Skolemize(And([Atom(P([Fn("f", [Fn("a", [])])])), Exists("y", Atom(Q([Var("y")])), false)], false))
         == And([Atom(P([Fn("f", [Fn("a", [])])])), Atom(Q([Fn("b", [])]))], false)
  {
    var pf := Atom(P([Fn("f", [Fn("a", [])])]));
    var ey := Exists("y", Atom(Q([Var("y")])), false);
    var f := And([pf, ey], false);
    assert Heads([Fn("f", [Fn("a", [])])]) == ["f"];
    assert ShallowFunctionNamesAll([ey]) == [];
    assert ShallowFunctionNamesAll([pf, ey]) == ["f"];
    assert ShallowFunctionNames(f) == ["f"];
    assert ArgsFunctionNames([Fn("a", [])]) == ["a"];
    assert TermFunctionNames(Fn("f", [Fn("a", [])])) == ["f", "a"];
    assert FunctionNames(pf) == ["f", "a"];
    assert FunctionNamesAll([ey]) == [];
    assert FunctionNamesAll([pf, ey]) == ["f", "a"];
    assert FunctionNames(f) == ["f", "a"];
    SkolemizeNested(["f"], "a");
    SkolemizeNested(["f", "a"], "b");
  }

  lemma SkolemizeNested(used: seq<string>, c: string)
    requires (used == ["f"] && c == "a") || (used == ["f", "a"] && c == "b")
    ensures SkolemizeWith(And([Atom(P([Fn("f", [Fn("a", [])])])), Exists("y", Atom(Q([Var("y")])), false)], false), map[], [], used).0
         == And([Atom(P([Fn("f", [Fn("a", [])])])), Atom(Q([Fn(c, [])]))], false)
  {
    var pf := Atom(P([Fn("f", [Fn("a", [])])]));
    var ey := Exists("y", Atom(Q([Var("y")])), false);
    var e: map<string, Entry> := map[];
    SkolemizeNestedPredicate(used);
    SkolemizeNestedExists(used, c);
    var t := SkolemizeAll([ey], e, [], used);
    assert [pf, ey][1..] == [ey] && [ey][1..] == [];
    assert t.0 == [Atom(Q([Fn(c, [])]))];
    assert SkolemizeAll([pf, ey], e, [], used).0 == [pf, Atom(Q([Fn(c, [])]))];
  }

  lemma SkolemizeNestedPredicate(used: seq<string>)
    ensures SkolemizeWith(Atom(P([Fn("f", [Fn("a", [])])])), map[], [], used) == (Atom(P([Fn("f", [Fn("a", [])])])), used)
  {
    var e: map<string, Entry> := map[];
    assert SkolemizeTerm(Fn("a", []), e) == Fn("a", []);
    assert SkolemizeArgs([Fn("a", [])], e) == [Fn("a", [])];
    assert SkolemizeTerm(Fn("f", [Fn("a", [])]), e) == Fn("f", [Fn("a", [])]);
    assert SkolemizeArgs([Fn("f", [Fn("a", [])])], e) == [Fn("f", [Fn("a", [])])];
  }

  lemma SkolemizeNestedExists(used: seq<string>, c: string)
    requires (used == ["f"] && c == "a") || (used == ["f", "a"] && c == "b")
    ensures SkolemizeWith(Exists("y", Atom(Q([Var("y")])), false), map[], [], used).0 == Atom(Q([Fn(c, [])]))
  {
    var e: map<string, Entry> := map[];
    SkolemizeNestedBody(used, c);
    assert SkolemizeExists("y", Atom(Q([Var("y")])), e, [], used).0 == Atom(Q([Fn(c, [])]));
  }

  lemma SkolemizeNestedBody(used: seq<string>, c: string)
    requires (used == ["f"] && c == "a") || (used == ["f", "a"] && c == "b")
    ensures NewConstant(used) == c
    ensures SkolemizeWith(Atom(Q([Var("y")])), map["y" := Entry(c, [])], [], used + [c]).0 == Atom(Q([Fn(c, [])]))
  {
    if c == "a" { NewConstantFirst(used); } else { NewConstantSecond(used); }
    var e: map<string, Entry> := map[];
    SkolemizeVariableArgs(c, e["y" := Entry(c, [])]);
  }

  lemma SkolemizeVariableArgs(c: string, sk: map<string, Entry>)
    requires sk == map["y" := Entry(c, [])]
    ensures SkolemizeArgs([Var("y")], sk) == [Fn(c, [])]
  {
    assert VarTerms([]) == [];
    assert SkolemizeTerm(Var("y"), sk) == Fn(c, []);
  }

  /** `there is y with P(a, y)` against the function names `used`, where `c` is the next
      fresh constant: `y` becomes `c`. */
  lemma SkolemizeConstantArgument(used: seq<string>, c: string)
    requires (used == [] && c == "a") || (used == ["a"] && c == "b")
    ensures SkolemizeWith(Exists("y", Atom(P([Fn("a", []), Var("y")])), false), map[], [], used).0
         == Atom(P([Fn("a", []), Fn(c, [])]))
  {
    var body := Atom(P([Fn("a", []), Var("y")]));
    var e: map<string, Entry> := map[];
    SkolemizeConstantBody(used, c);
    SkolemizeExistsUnfold(Exists("y", body, false), e, [], used);
    SkolemizeExistsBody("y", body, e, [], used);
  }

  lemma SkolemizeConstantBody(used: seq<string>, c: string)
    requires (used == [] && c == "a") || (used == ["a"] && c == "b")
    ensures NewConstant(used) == c
    ensures SkolemizeWith(Atom(P([Fn("a", []), Var("y")])), map["y" := Entry(c, [])], [], used + [c]).0
         == Atom(P([Fn("a", []), Fn(c, [])]))
  {
    if used == [] { NewConstantFirst(used); } else { NewConstantSecond(used); }
    var e: map<string, Entry> := map[];
    var sk := e["y" := Entry(c, [])];
    SkolemizeConstantArgs(c, sk);
  }

  lemma SkolemizeConstantArgs(c: string, sk: map<string, Entry>)
    requires sk == map["y" := Entry(c, [])]
    ensures SkolemizeArgs([Fn("a", []), Var("y")], sk) == [Fn("a", []), Fn(c, [])]
  {
    assert VarTerms([]) == [];
    assert SkolemizeTerm(Fn("a", []), sk) == Fn("a", []);
    assert SkolemizeTerm(Var("y"), sk) == Fn(c, []);
  }

  /** The stacked-universal discrepancy as written: `for all x, for all y, P(x, y)` keeps
      its inner universal, while the intended pass strips both. */
  lemma StackedUniversals()
    ensures DiscardForAllAsWritten(ForAll("x", ForAll("y", Atom(P([Var("x"), Var("y")])), false), false))
         == ForAll("y", Atom(P([Var("x"), Var("y")])), false)
    ensures !Lacks(DiscardForAllAsWritten(ForAll("x", ForAll("y", Atom(P([Var("x"), Var("y")])), false), false)), KForAll)
    ensures DiscardForAll(ForAll("x", ForAll("y", Atom(P([Var("x"), Var("y")])), false), false))
         == Atom(P([Var("x"), Var("y")]))
  {
  }

  /** A conjunction of one disjunction of literals gives one clause holding both literals. */
  lemma OneClause()
    ensures ToClauseForm(And([Or([Atom(Predicate("P", [Var("x")], true)), Atom(Q([Var("x")]))], false)], false))
         == Ok([[Predicate("P", [Var("x")], true), Q([Var("x")])]])
  {
    var lits := [Predicate("P", [Var("x")], true), Q([Var("x")])];
    var d := Or([Atom(lits[0]), Atom(lits[1])], false);
    var c := ClauseOf(d);
    assert c.Ok? && |c.value| == 2;
    assert Atom(c.value[0]) == d.children[0] && Atom(c.value[1]) == d.children[1];
    assert c.value == lits;
    var cls := ClausesOf([d]);
    assert cls.Ok? && |cls.value| == 1 && ClauseOf([d][0]) == Ok(cls.value[0]);
    assert cls.value == [lits];
  }

  /** A clause sharing `x` with the names already used has it renamed to `z`. */
  lemma RenameSharedVariable()
    ensures StandardizeClause([P([Var("x")])], ["x"]).0 == [P([Var("z")])]
  {
    var c := [P([Var("x")])];
    assert TermVarList(Var("x")) == ["x"];
    assert ArgsVarList([Var("x")]) == ["x"];
    assert ClauseVarList(c) == ["x"];
    assert SharedNames(["x"], ["x"]) == ["x"];
    NewVariableFirst(["x"] + ["x"]);
    assert RenameVarArgs([Var("x")], "x", "z") == [Var("z")];
    assert RenamePredicate(P([Var("x")]), "x", "z") == P([Var("z")]);
    assert RenameInClause(c, "x", "z") == [P([Var("z")])];
    assert RenameCommon(c, ["x"], ["x", "x"]).0 == [P([Var("z")])];
  }
}
