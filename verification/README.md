# fol-solver in Dafny: unification and the clause-form pipeline

This project models the symbolic core of a small first-order-logic toolkit. It has two
independent parts.

**Syntactic unification** (`unification.py`, repeated verbatim in `fol.py`). `unify`
returns an ordered list of bindings that makes the two terms equal, and `unify_variable`
adds one binding at a time after an occurs-check. `substitute` applies the bindings in
list order and `occurs_in` is the occurs-check. Terms are `Var(name)` or `Fn(name, args)`.
The `False` the source returns at `unification.py:14` and `unification.py:53` is `None`.
The `false` at `unification.py:21`, written in lower case, is an undefined name: a name
or arity clash raises `NameError`, which no caller catches. `Unification.UnifyAsWritten`
models that error path. `Unification.Unify` is the intended version, which fails with
`None` instead. The unifier is not always most general, and a unifiable pair can even be
rejected (see "## Findings"). `substitute` also rewrites the `children` of a compound
expression in place (`unification.py:37`), and that object can be a replacement already
stored in the list. The model works on values, so it leaves out this rewriting and the
results it changes (see "## Left out"). A binding list that the source builds is always well
formed: no variable is bound twice, and a replacement never mentions a variable bound at
or before its own position. `Unify` keeps this invariant. Termination follows from a
measure: unbound variables first, then the size of the terms after substitution.

**The clause-form pipeline** (`clause_form.py`) rewrites a `Formula` tree in stages:

1. equivalence removal, then implication removal (`Normalize`);
2. renaming bound variables apart (`Standardize`);
3. Skolemization and dropping the universal quantifiers (`Skolem`);
4. flattening and distributing `Or` over `And` (`Cnf`);
5. extracting clauses and renaming variables apart between clauses (`Clauses`).

The fresh-name service (`Names`) draws variable names from `z` down to `l` and constants
from `a` up to `j`. It tries one letter, then the letter doubled, up to four copies, as
the source does. Every pass is a pure function. The source's mutable default arguments
become explicit parameters: the scope map, the universals in scope and the names used so
far.

`clause_form.py` is written against a revision of `fol.py` other than the one shown,
which has `Conjunction`, `Disjunction` and `ForAll.variable` instead. The model therefore
rests on these assumptions about the missing revision:

- there are classes `And`, `Or`, `Connective`, `ThereExists` and `Equivalence`;
- connectives offer `get_children` and `set_children`;
- implications and equivalences offer `get_children` with their two sides, left first;
- predicates and functions offer `get_children` with their argument terms;
- the connective classes define no `__eq__`, so, like `Predicate`, they hash by identity
  and can be put in a `set`; `Function` and `Variable` define `__eq__` without `__hash__`
  and cannot;
- quantifiers offer no `get_children`, and name their variable `variable_name`;
- `get_implications` and `get_or` build the rewritten nodes.

The rewrite shapes rest on the same assumptions: which negation flags are kept, and the
`false` flag on every node that a rewrite creates.

## Model

| member | source | states |
|---|---|---|
| `Terms.TermEqIsEquality` | fol.py:20-29 | Two terms are equal under the classes' `__eq__` exactly when they are structurally equal. Functions need the same name and pairwise-equal arguments, variables need the same name, and a variable never equals a function. |
| `Terms.OccursIffInVars` | fol.py:110-115 | `occurs_in(v, e)` holds exactly when `v` is one of the variables of `e`. |
| `Terms.Negate` | fol.py:40-41 | `Predicate.negate` flips the polarity and keeps the name and the arguments. |
| `Terms.NegateTwice` | fol.py:40-41 | Negating a predicate twice gives back the original predicate. |
| `Formulas.Negate` | fol.py:65-66 | `negate` flips the node's own flag and keeps its kind. No kind of node appears or disappears anywhere in the formula. |
| `Formulas.NegateTwice` | fol.py:65-66 | Negating a formula node twice is the identity. |
| `Unification.Substitute` | unification.py:32-38 | The result mentions no bound variable. Its variables come from the expression or from replacements. An expression that mentions no bound variable is returned unchanged. |
| `Unification.UnifyVariable` | unification.py:47-57 | For an unbound variable, the call fails exactly when the variable occurs in the substituted expression. On success the result is the old list plus exactly one binding, of the variable to the substituted expression. The result is a well-formed extension of the old list. With `corrected` set, a variable whose substituted expression is the variable itself leaves the list unchanged. |
| `Unification.Unify` | unification.py:11-30 | The intended `unify`: failure in gives failure out. Equal terms leave the list unchanged. Functions with different names or arities fail with `None`, where the source raises. A success extends the input list as an unchanged prefix, stays well formed and mentions only variables of the problem. |
| `Unification.UnifyArgs` | unification.py:22-25 | Argument pairs are unified left to right. Failure propagates, and a success is a well-formed extension of the input list. |
| `Unification.UnifyPredicates` | unification.py:18-25 | The intended predicate case: predicates with different names or arities fail with `None`. Otherwise their arguments are unified as for functions. |
| `Unification.Raises` | unification.py:18-25 | The condition under which the source reaches the undefined `false`: a clash between two functions somewhere along the unification. Whenever it holds, the intended `Unify` fails. |
| `Unification.RaisesVariable` | unification.py:47-50 | `unify_variable` raises only through the `unify` call on a bound variable's stored replacement. Whenever it raises, the intended `unify_variable` fails. |
| `Unification.RaisesArgs` | unification.py:23-24 | An argument list reaches the clash when some pair does before an earlier pair has failed, and then the intended argument unification fails. |
| `Unification.UnifyAsWritten` | unification.py:11-30 | `unify` as written, on terms as values: either `NameError`, which happens only where the intended `Unify` fails and always on two functions with different names, or the intended result. The in-place rewriting by `substitute` is not modelled and can change the source's result (see "## Left out"). |
| `Unification.UnifyPredicatesAsWritten` | unification.py:18-25 | The same for predicates: a name or arity clash between different predicates raises `NameError`. Every other outcome is the intended one on values, with the same exception for the in-place rewriting by `substitute`. |
| `UnificationProofs.SubstituteIsApply` | unification.py:32-38 | On a well-formed list, `substitute` equals an independent reference definition that applies the bindings one after another in list order. |
| `UnificationProofs.UnifySound` | unification.py:11-30 | A successful `unify` makes the two terms equal once its bindings are applied. This holds for the as-written and the corrected `unify_variable` alike. |
| `UnificationProofs.UnifyVariableSound` | unification.py:47-57 | A successful `unify_variable` makes the variable and the expression equal once its bindings are applied. This holds for the as-written and the corrected `unify_variable` alike. |
| `UnificationProofs.UnifyArgsSound` | unification.py:22-25 | A successful argument-list unification makes every pair of arguments equal once its bindings are applied. This holds for the as-written and the corrected `unify_variable` alike. |
| `UnificationProofs.UnifySubstitutes` | unification.py:11-38 | `substitute` with the unifier maps both terms to the same term. This holds for the as-written and the corrected `unify_variable` alike. |
| `UnificationProofs.UnifyPredicatesSound` | unification.py:18-25 | A successful predicate unification maps each pair of arguments to the same term under `substitute`. This holds for the as-written and the corrected `unify_variable` alike. |
| `UnificationProofs.UnifyArgsAppend` | unification.py:23-24 | Unifying two concatenated argument lists is the same as unifying the first part, then the second part from the first part's result. |
| `UnificationProofs.UnifyArgsFailed` | unification.py:13-14 | Once the list is failure, the arguments cannot make it anything else. |
| `UnificationProofs.UnifyArgsFailsAt` | unification.py:23-25 | If one argument pair fails, the whole argument list fails, whatever follows. |
| `UnificationProofs.UnifyArgsHeadFails` | unification.py:23-25 | If the first pair fails, the argument list fails. |
| `UnificationProofs.UnifyArgsSame` | unification.py:15-16 | Unifying an argument list with itself returns the input list unchanged. |
| `UnificationProofs.UnifyPredicatesSame` | unification.py:15-16 | Unifying a predicate with itself returns the input list unchanged. |
| `UnificationProofs.UnifyBoundVariable` | unification.py:49-50 | For an already bound variable, `unify_variable` unifies its stored replacement against the other side. |
| `UnificationProofs.SubstituteEmpty` | unification.py:32-38 | The empty list substitutes nothing. |
| `UnificationExamples.SameFunctor` | unification.py:18-25 | `f(x)` and `f(a)` unify to `[a/x]`. |
| `UnificationExamples.FunctorClash` | unification.py:18-21 | The intended outcome for `f(x)` against `g(a)`: the two terms do not unify, and the result is `None`. |
| `UnificationExamples.FunctorClashAsWritten` | unification.py:18-21 | As written, `f(x)` against `g(a)` raises `NameError`. |
| `UnificationExamples.NestedClashAsWritten` | unification.py:18-25 | The `NameError` of a clash inside an argument, `h(f(x))` against `h(g(a))`, reaches the top-level call. |
| `UnificationExamples.OccursFailureAsWritten` | unification.py:51-53 | An occurs-check failure, `x` against `f(x)`, returns the failure value and raises nothing. |
| `UnificationExamples.SwappedVariables` | unification.py:47-57 | As written, `f(y, x)` and `f(x, y)` do not unify, although `[x/y]` unifies them. After `[x/y]` the second pair meets `x` against `x`, and the occurs-check rejects it. |
| `UnificationExamples.SwappedVariablesCorrected` | unification.py:47-57 | With the corrected `unify_variable`, `f(y, x)` and `f(x, y)` unify to `[x/y]`. |
| `UnificationExamples.SwappedFirstPair` | unification.py:47-57 | Both versions bind `y` to `x` on the first pair. |
| `UnificationExamples.RepeatedVariable` | unification.py:47-57 | `f(x, x)` and `f(a, b)`, with `a` and `b` variables, unify to `[a/x, b/a]`: the second pair binds `a` through `x`. |
| `UnificationExamples.BindX` | unification.py:51-57 | An unbound variable against a different variable gives one new binding. |
| `UnificationExamples.BindA` | unification.py:49-57 | A bound variable sends the replacement on, and the result appends one binding to the old list. |
| `Names.NewVariable` | clause_form.py:25-30 | The new variable name is not in use. It is the first unused candidate in the order `z` to `l`, then doubled letters, up to four copies. |
| `Names.NewConstant` | clause_form.py:32-37 | The new constant name is not in use. It is the first unused candidate in the order `a` to `j`, then doubled letters, up to four copies. |
| `Names.NewVariableFirst` | clause_form.py:26-30 | `z` is the new variable whenever `z` is unused. |
| `Names.NewConstantFirst` | clause_form.py:33-37 | `a` is the new constant whenever `a` is unused. |
| `Names.NewConstantSecond` | clause_form.py:33-37 | `b` is the new constant when `a` is used and `b` is not. |
| `Normalize.RemoveEquivalences` | clause_form.py:3-12 | No equivalence remains. A formula without one is returned unchanged. An equivalence becomes a conjunction with the same negation flag, and every other node keeps its kind. |
| `Normalize.RemoveEquivalencesIff` | clause_form.py:6-7 | An equivalence becomes the conjunction of its two implications, left to right and right to left, each side with its own equivalences removed, under the equivalence's negation flag. |
| `Normalize.RemoveEquivalencesAtoms` | clause_form.py:3-12 | The predicates of the formula are the same before and after. |
| `Normalize.RemoveEquivalencesKeepsKinds` | clause_form.py:3-12 | No node kind appears that was absent, except conjunctions and implications, which come from the rewrite itself. |
| `Normalize.RemoveImplications` | clause_form.py:14-23 | No implication remains. No kind other than disjunction appears. A formula without implications is returned unchanged. An implication becomes a disjunction with the same negation flag. |
| `Standardize.RenameTerm` | clause_form.py:40-41 | A term is renamed exactly when all its variables have a scope entry. Then each variable becomes its scope entry in place, and the term keeps its shape (an independent definition, `Terms.RenameVars`). Otherwise the `KeyError` names an unbound variable of the term. |
| `Standardize.RenameArgs` | clause_form.py:40-41 | The same as `RenameTerm` for an argument list: each argument is renamed in place, and the list keeps its length. |
| `Standardize.StandardizeApart` | clause_form.py:39-54 | It succeeds exactly when every variable is bound by an enclosing quantifier. Each variable occurrence then becomes the new name of its binder, and nothing else changes. Every new binder avoids the names used before it. Used names grow by exactly the new binders and stay duplicate-free. Each node keeps its kind. A bound name is kept exactly when it was unused. |
| `Standardize.StandardizeBody` | clause_form.py:42-51 | The quantifier's name is kept exactly when it is unused, and otherwise is a name not in use. It is recorded as used before the body is processed. The body is renamed under the scope extended by that name. |
| `Standardize.StandardizeQuantifier` | clause_form.py:42-51 | A quantifier node gets the guarantees of `StandardizeApart`: its occurrences are renamed to the binder's new name, and the new name avoids every used name. |
| `Standardize.StandardizeJunction` | clause_form.py:52-53 | A conjunction or disjunction succeeds exactly when every child is closed under the scope. Each child is renamed under that scope, its binders are fresh, the used names grow by the children's binders, and the node keeps its kind. |
| `Standardize.StandardizeBinary` | clause_form.py:52-53 | An implication or equivalence succeeds exactly when both sides are closed under the scope. Both sides are renamed under that scope with fresh binders, the used names grow by their binders, and the node keeps its kind. |
| `Standardize.StandardizePair` | clause_form.py:52-53 | It succeeds exactly when both sides are closed. Each side is renamed under the scope with fresh binders. The used names afterwards are the old ones plus the binders of the left side, then of the right side. |
| `Standardize.StandardizeAll` | clause_form.py:52-53 | A list of children keeps its length. Each child is renamed under the scope with fresh binders, and the used names grow by the binders of the results in order. |
| `Standardize.Standardize` | clause_form.py:39-54 | From an empty scope the pass succeeds exactly on closed formulas. Then all bound names are pairwise distinct, and the result is alpha-equivalent to the input: the same formula up to the names of bound variables. |
| `Standardize.RenamesAlpha` | clause_form.py:39-54 | Renaming every occurrence through the scope, with binders that avoid the used names, gives an alpha-equivalent formula. This is the partner of `StandardizeApart`. |
| `Standardize.RenameVarsAlpha` | clause_form.py:40-41 | Renaming a closed term through a scope that matches the two binder stacks keeps it alpha-equivalent. |
| `Standardize.StandardizeApartAsWritten` | clause_form.py:39-54 | The source's version, whose one scope map is shared by all branches: on a closed formula it succeeds. Its failures are unbound variables. The scope only gains entries, the used names grow by the new binders, and each node keeps its kind. |
| `Standardize.StandardizeBodyAsWritten` | clause_form.py:42-51 | The quantifier case as written: its entry stays in the shared scope after the body. The name is kept exactly when it is unused. |
| `Standardize.StandardizePairAsWritten` | clause_form.py:52-53 | Two sides as written: the right side sees the entries the left side added. |
| `Standardize.StandardizeAllAsWritten` | clause_form.py:52-53 | Siblings as written: each sees the entries of the siblings before it. The length is kept. |
| `Skolem.FunctionNames` | clause_form.py:56-64 | The list holds exactly the function names that occur in the formula, at any depth. |
| `Skolem.ShallowFunctionNames` | clause_form.py:56-64 | What the source's walk collects: only names of function terms in the formula, and possibly not all of them. |
| `Skolem.VarTerms` | clause_form.py:72 | The argument list of a Skolem term holds one variable per universal in scope, in order. |
| `Skolem.SkolemizeTerm` | clause_form.py:69-72 | A variable with an entry becomes its Skolem function applied to the universals recorded for it, in order. A variable without one is unchanged, and a function keeps its name and arity. The result's variables are the untouched ones plus those universals, and its function names are the old ones plus the Skolem names. |
| `Skolem.SkolemizeWith` | clause_form.py:66-83 | No existential remains. The used names grow by exactly one new name per existential, each unused before. The universal binders are kept in order. |
| `Skolem.SkolemizeExists` | clause_form.py:73-77 | An existential draws one name not in use, records it, and is replaced by its processed body. |
| `Skolem.SkolemizeExistsReplaces` | clause_form.py:73-77 | Skolemizing `there is v with b` is the same as skolemizing `b` with every occurrence of `v` replaced by the term `c(u1, ..., un)`. Here `c` is the next fresh constant and `u1, ..., un` are the universals in scope. This holds when no existential inside reuses `v` or a universal's name, which standardizing apart ensures. |
| `Skolem.SkolemizeReplace` | clause_form.py:66-83 | Recording an entry for `v` in the Skolem map has the same effect as first replacing every occurrence of `v` by the entry's term (an independent definition, `Skolem.ReplaceInFormula`). |
| `Skolem.SkolemizeAllReplace` | clause_form.py:81-82 | The same, child by child, for a list of children. |
| `Skolem.SkolemizeTermReplace` | clause_form.py:69-72 | The same for one term. |
| `Skolem.SkolemizeKeepsKinds` | clause_form.py:66-83 | No kind of node appears that was absent. |
| `Skolem.SkolemizeUnchanged` | clause_form.py:66-83 | A formula with no existential and no variable to replace is returned unchanged. |
| `Skolem.Skolemize` | clause_form.py:66-83 | The top-level call removes every existential. It introduces no kind that was absent and keeps the universals. A formula without existentials is unchanged. |
| `Skolem.SkolemNamesFresh` | clause_form.py:67-76 | The Skolem names, one per existential, are pairwise distinct. None of them names a function already in the formula. |
| `Skolem.SkolemizeAsWritten` | clause_form.py:66-68 | The as-written pass, whose collection of names to avoid is shallow, still removes every existential. |
| `Skolem.DiscardForAllAsWritten` | clause_form.py:85-90 | A top universal gives way to its body's kind. Any other top node keeps its kind, and the predicates are unchanged. |
| `Skolem.DiscardForAll` | clause_form.py:85-90 | No universal remains, and no other kind of node appears. A formula without universals is unchanged, and the predicates are unchanged. |
| `Skolem.DiscardForAllAgrees` | clause_form.py:85-90 | Without existentials and without a universal directly under a universal, the as-written pass and the corrected pass agree. |
| `Cnf.Merge` | clause_form.py:92-101 | After the merge no conjunction has a conjunction child and no disjunction has a disjunction child. The kind and the negation flag of the top node are kept, and so are the predicates. A flat formula is unchanged. |
| `Cnf.MergeChildren` | clause_form.py:94-101 | No spliced child has the parent's kind and every child is flat. The predicates are kept, and children that need no merge are unchanged. |
| `Cnf.MergeKeepsShape` | clause_form.py:92-101 | Merging keeps a formula free of a disjunction over a conjunction, and keeps a formula built from predicates, conjunctions and disjunctions. |
| `Cnf.PushOr` | clause_form.py:103-117 | The distribution measure never grows, which is what makes the re-application at lines 114-116 terminate. Its meaning is stated by `Cnf.PushOrMeaning`. |
| `Cnf.Distribute` | clause_form.py:113-116 | One new disjunction per conjunct of the distributed conjunction, with bounded measure. Its meaning is stated by `Cnf.DistributeMeaning`. |
| `Cnf.PushOrNormal` | clause_form.py:103-117 | After `push_or` no disjunction has a conjunction as a direct child. |
| `Cnf.PushOrFixesNormal` | clause_form.py:103-117 | A formula with no disjunction over a conjunction is a fixed point of `push_or`. |
| `Cnf.PushOrIdempotent` | clause_form.py:103-117 | Applying `push_or` twice is the same as applying it once. |
| `Cnf.PushOrPropositional` | clause_form.py:103-117 | A formula of predicates, conjunctions and disjunctions stays one. |
| `Cnf.FlatNormalIsCnf` | clause_form.py:119-123 | A flat formula of predicates, conjunctions and disjunctions, with no disjunction over a conjunction, is in conjunctive normal form. |
| `Cnf.ToCnf` | clause_form.py:119-123 | The result is flat, with no disjunction over a conjunction. On a formula of predicates, conjunctions and disjunctions it is in conjunctive normal form. Its meaning is stated by `Cnf.ToCnfMeaning`. |
| `Cnf.MergeMeaning` | clause_form.py:92-101 | On a formula whose negations sit on its predicates, merging keeps that shape and keeps the truth value under every valuation of the literals. |
| `Cnf.MergeChildrenMeaning` | clause_form.py:94-101 | Splicing keeps the children positive. All of a conjunction's spliced children hold exactly when all of the original children hold, and likewise for "some" in a disjunction. |
| `Cnf.PushOrMeaning` | clause_form.py:103-117 | On a formula whose negations sit on its predicates, `push_or` keeps that shape and keeps the truth value under every valuation: `(a and b) or r` becomes `(a or r) and (b or r)`. |
| `Cnf.PushOrChildrenMeaning` | clause_form.py:104-114 | A disjunction whose children are already pushed holds after distribution exactly when one of its children holds. |
| `Cnf.DistributeMeaning` | clause_form.py:114 | Each new disjunction, built from one conjunct `c` and the other children `rest`, holds exactly when `c` or one of `rest` holds. |
| `Cnf.ToCnfMeaning` | clause_form.py:119-123 | `to_cnf` keeps the truth value of a formula whose negations sit on its predicates, under every valuation of the literals. |
| `Clauses.ClauseOf` | clause_form.py:128-131 | The intended clause of one conjunct. A predicate gives the singleton clause. A conjunction or disjunction gives its children's predicates in order, and fails unless every child is a predicate. |
| `Clauses.ClausesOf` | clause_form.py:126-132 | One clause per conjunct, in order. The list succeeds exactly when each conjunct gives a clause. |
| `Clauses.ToClauseFormAsWritten` | clause_form.py:125-132 | As written, a quantifier at the top raises. A predicate at the top is read through its argument terms: it succeeds exactly when every argument is a constant, and then gives one empty clause per argument. A variable argument has no children, and a compound argument's children are terms that `set` cannot hold. A conjunction or disjunction of predicates gives one unit clause per child. Every failure is the missing-`get_children` error or the unhashable-term error. |
| `Clauses.ChildItems` | clause_form.py:129-131 | `get_children` raises exactly on a quantifier or a variable. On a conjunction or disjunction it gives the sub-formulas. |
| `Clauses.ItemClause` | clause_form.py:128-131 | A predicate child gives the singleton holding itself. A conjunction or disjunction gives its sub-formulas, an implication or equivalence its two sides, and a constant the empty clause. A quantifier or variable raises for lack of children, and a function with arguments raises because its children are unhashable terms. Whatever succeeds holds only hashable items. |
| `Clauses.ItemClauses` | clause_form.py:127-131 | One clause per child, in order. The loop succeeds exactly when each child gives a clause. Otherwise the error is that of the first child that raises. |
| `Clauses.AsWrittenConjunction` | clause_form.py:125-132 | On a conjunction whose conjuncts are literals or clauses of literals, the source's clauses are exactly the intended ones. |
| `Clauses.AtomChildrenAsWritten` | clause_form.py:127-129 | A connective whose children are all predicates gives one unit clause per child. |
| `Clauses.TermChildrenAsWritten` | clause_form.py:125-132 | As written, `P(f(x))` raises the unhashable-term error and `P(x)` the missing-`get_children` error. |
| `Clauses.OddShapesAsWritten` | clause_form.py:125-132 | As written, `P(a)` gives one empty clause. A disjunction holding a quantifier puts the quantifier into its clause, where the intended extraction reports that the conjunct is not made of literals. |
| `Clauses.ToClauseForm` | clause_form.py:125-132 | A conjunction gives one clause per conjunct, and on success the source gives the same clauses. A lone disjunction or a lone predicate gives exactly one clause. |
| `Clauses.ToClauseFormMeaning` | clause_form.py:125-132 | On a positive formula in conjunctive normal form, the extracted clauses hold under exactly the valuations under which the formula holds. |
| `Clauses.DisjunctionSplitAsWritten` | clause_form.py:127-131 | The as-written extraction turns `P or Q` into the clauses `{P}` and `{Q}`. These are false under a valuation that makes the formula true. |
| `Clauses.RenameVar` | clause_form.py:147-149 | Renaming `src` to `dst` in a term removes `src`, and adds `dst` exactly when `src` was present. |
| `Clauses.RenameVarRoundTrip` | clause_form.py:140-150 | Renaming to a name the term does not use, then back, restores the term. |
| `Clauses.RenameInClause` | clause_form.py:140-150 | Renaming in a clause touches only variable names. Length, predicate names, polarities and arities are kept. |
| `Clauses.RenameInClauseVars` | clause_form.py:140-150 | The clause's variables lose `src` and gain `dst` exactly when `src` was there. |
| `Clauses.RenameInClauseRoundTrip` | clause_form.py:140-150 | Renaming a clause to an unused name, then back, restores the clause. |
| `Clauses.ClauseVarList` | clause_form.py:56-64 | `get_all_of_type(clause, Variable)` lists exactly the variables of the clause. |
| `Clauses.SharedNames` | clause_form.py:156-157 | The common variables, each once, are exactly the clause's variables that are already used. |
| `Clauses.RenameCommon` | clause_form.py:159-162 | The inner loop draws one new name per common variable. The names are pairwise distinct, none is in use, and the clause keeps its shape. |
| `Clauses.RenameCommonVars` | clause_form.py:159-162 | After the inner loop, the clause's variables are its old ones minus the common ones, plus the drawn names. |
| `Clauses.RenameCommonRoundTrip` | clause_form.py:159-162 | Renaming the drawn names back, last first, restores the clause. |
| `Clauses.StandardizeClause` | clause_form.py:155-163 | One pass keeps the clause's shape and never forgets a used name. |
| `Clauses.StandardizeClauseApart` | clause_form.py:156-162 | After one pass every variable of the clause, old and new, is used. The variables of the result avoid every name used before the pass. |
| `Clauses.StandardizeClauseUndoable` | clause_form.py:156-162 | One pass only renames variables, one-to-one: a sequence of renamings produces the result from the clause, and another restores the clause, so no two variables are merged and none is split. |
| `Clauses.RenameCommonForward` | clause_form.py:158-162 | The inner loop's result is the clause with each common variable renamed to its drawn name, applied first to last. |
| `Clauses.StandardizeClauseUnshared` | clause_form.py:156-162 | A clause that shares no variable with the used names passes through unchanged. |
| `Clauses.StandardizeClausesApart` | clause_form.py:152-164 | The count of clauses is kept, and the first clause is unchanged. Each result is a one-to-one renaming of its clause: renamings lead both from the clause to the result and back. No two resulting clauses share a variable. Clauses already apart come back unchanged, so the pass is idempotent. |
| `PipelineExamples.StandardizeTwoBinders` | clause_form.py:39-54 | In `(all x P(x)) and (all x Q(x))` the second `x` becomes `z`. |
| `PipelineExamples.StandardizeFreeVariable` | clause_form.py:40-41 | A free variable makes standardizing fail. |
| `PipelineExamples.SkolemizeDependent` | clause_form.py:66-90 | `for all x there is y with R(x, y)` becomes `for all x, R(x, a(x))`. Dropping the universal then gives `R(x, a(x))`. |
| `PipelineExamples.SkolemNameClash` | clause_form.py:66-77 | On `there is y with P(a, y)`, the as-written pass gives `P(a, a)` and the corrected pass gives `P(a, b)`. |
| `PipelineExamples.SkolemNameClashNested` | clause_form.py:56-77 | On `P(f(a)) and there is y with Q(y)`, the as-written pass collects `f` but not the nested `a`, so it gives `Q(a)`. The corrected pass gives `Q(b)`. |
| `PipelineExamples.SharedScopeCapture` | clause_form.py:39-54 | On `for all x, ((for all x, P(x)) and Q(x))`, the source's shared scope sends the `x` of `Q(x)` to `z`, so the outer quantifier no longer binds it. The result is not alpha-equivalent to the input. The corrected pass gives `Q(x)`. |
| `PipelineExamples.SharedScopeLeak` | clause_form.py:39-54 | On `(for all x, P(x)) and Q(x)`, the quantifier's scope entry leaks to its sibling, so the source accepts the free `x`. The corrected pass reports it as unbound. |
| `PipelineExamples.StandardizeUnaryIn` | clause_form.py:42-51 | Standardizing `for all x, P(x)` does not depend on the scope it starts from. |
| `PipelineExamples.StackedUniversals` | clause_form.py:85-90 | The as-written pass turns `for all x, for all y, P(x, y)` into `for all y, P(x, y)`. The corrected pass gives `P(x, y)`. |
| `PipelineExamples.OneClause` | clause_form.py:125-132 | A conjunction of one disjunction of two literals gives one clause holding both literals. |
| `PipelineExamples.RenameSharedVariable` | clause_form.py:152-164 | A clause `P(x)` whose `x` is already in use has it renamed to `z`. |

Other members are helpers for these proofs and model nothing of their own: measures,
reference definitions and bookkeeping lemmas.

## Left out

- Printing and tracing: `pp`, every `__str__`, `stringify_clause_form`, and the
  `get_clause_form` driver with its `print` calls. This is output only.
- The `__main__` demonstrations of all three files. They are drivers; some of their
  inputs reappear as worked example lemmas.
- Object mutation, `copy` and `deepcopy`. Every pass returns a new value. So does the
  aliasing of child objects between the new disjunctions of `push_or`, which the source
  later mutates in place.
- Python's mutable default arguments persist across top-level calls. The scope and
  `used_names` of `standardize_apart` (`clause_form.py:39`), and the `to_skolemize` map
  and universals of `skolemize` (`clause_form.py:66`), still hold what an earlier call
  put there. So the second `get_clause_form` of a run starts with the first call's
  names in use. Every model function starts each top-level call from empty state.
- `Standardize.StandardizeApart`: the source shares one scope map between sibling
  branches (`clause_form.py:48`, `clause_form.py:53`). The model gives each branch its
  own scope, which is the intended behaviour. The source's version is
  `Standardize.StandardizeApartAsWritten`, and the difference is a finding below.
- `Standardize.StandardizeQuantifier`: the same per-branch scope. The entry for the
  bound name is visible only inside the body.
- `Standardize.StandardizeJunction`: the same per-branch scope. A child does not see
  entries its earlier siblings added.
- `Standardize.StandardizeBinary`: the same per-branch scope. The right side does not
  see entries the left side added.
- `Standardize.StandardizePair`: the same per-branch scope as `StandardizeBinary`.
- `Standardize.StandardizeAll`: the same per-branch scope as `StandardizeJunction`.
- `Standardize.StandardizeApartAsWritten`: a closed input always succeeds, but the
  renaming of the as-written pass is not stated in general. The capture it can cause is
  shown by `PipelineExamples.SharedScopeCapture`.
- `Skolem.SkolemizeWith`: the universals in scope are scoped per branch. In the source,
  `quantified_variables` is one list that is appended to (`clause_form.py:79`) and never
  popped. So `(for all x, P(x)) and (for all y, there is z with Q(y, z))` gives `a(x, y)`
  in the source and `a(y)` in the model. The `to_skolemize` map (`clause_form.py:75`) is
  also shared by siblings in the source. After standardizing apart no two quantifiers
  share a name, so a leaked entry is never looked up there.
- `Skolem.SkolemizeExistsReplaces`: it assumes that no existential inside reuses the
  replaced name or a universal's name. Standardizing apart gives this; without it, the
  map update and the textual replacement differ.
- `Names.NewVariable`: once all 60 candidates are used, the source returns `None`. The
  model returns a longer run of `z` instead, because a `None` name would only surface
  later as a broken formula. `Names.NewConstant` does the same with `a` after 40
  candidates.
- Negation pushing (`push_negation`, called at `clause_form.py:175`). The connectives'
  versions are not part of this model. The quantifiers' version (`fol.py:53-57`) hands a
  negated quantifier to `flip`, which is defined nowhere in the files modelled. The
  meaning lemmas of `Cnf` therefore assume that negations already sit on the predicates (`Cnf.Positive`).
- `Cnf.Merge`: a negated conjunction spliced into a conjunction loses its flag, as in the
  source. `Cnf.MergeMeaning` covers only formulas without negated connectives, where
  this cannot happen.
- `Cnf.PushOr`: the negation flag of a disjunction that is distributed is dropped, as in
  the source (`clause_form.py:114`). `Cnf.PushOrMeaning` covers only formulas without
  negated connectives.
- `Normalize.RemoveImplications`: the predicates are not shown preserved, because the
  rewrite negates the antecedent. Only the kinds of node are tracked.
- `Unification.UnifyAsWritten`: `substitute` assigns `expression.children` in place
  (`unification.py:37`). When the expression is a replacement stored in the list, the stored
  binding changes, and later comparisons see the changed term. For `f(v, w, u, v)` against
  `f(g(w), z, h(v), g(w))`, with two separate `g(w)` objects, the third pair rewrites the stored `g(w)` to `g(z)`. The fourth
  pair then reaches `z` against `w`, which the occurs-check rejects as in the
  swapped-variable finding, so the source returns `False`. The model returns a list. For
  `f(v, w, u)` against `f(g(w), z, h(v))` both succeed, but the source's list shows
  `g(z)/v` where the model's has `g(w)/v`. The two lists substitute alike, because `w` is
  bound to `z` later in the list. Object identity and aliasing are outside this model;
  `Unification.UnifyPredicatesAsWritten` inherits the same gap.
- `Unification.Unify`: most-generality is not proved, and it fails to hold in general.
  The contracts give well-formedness, the prefix property and soundness. The as-written
  unifier even misses some unifiable pairs (see "## Findings").
- Clauses are sequences. The source's Python sets of predicates compare by identity,
  so no literal is ever merged, and a list keeps that behaviour.
- The order in which `clause_form_standardize_apart` visits the common variables.
  The source iterates a Python set in hash order; the model takes them in order of
  first occurrence. The resulting names may differ, but every property stated holds
  for either order.
- `Clauses.ClauseOf`: it fails on a conjunct whose children are not all predicates,
  where the source puts whatever the children are into the clause.
  `Clauses.ToClauseFormAsWritten` models the source's behaviour.
- `Clauses.ToClauseFormAsWritten`: for an implication or equivalence at the top, it
  reads both sides as children, but no contract is stated for that case. The pass runs
  after both connectives are gone.
- `get_all_of_type` on arbitrary Python iterables (`clause_form.py:61-62`). It is
  modelled as plain structural collectors, one per kind of value.

## Findings

| source | as written | input that shows it | evidently intended | confidence | as-written member | corrected member |
|---|---|---|---|---|---|---|
| unification.py:18-21 | a name or arity clash runs `return false` with a lower-case `false`, an undefined name | `f(x)` against `g(a)` raises `NameError` instead of failing | the failure value `False`, as at line 14 | high, not executed | `UnificationExamples.FunctorClashAsWritten` | `Unification.Unify` |
| unification.py:47-57 | `unify_variable` runs the occurs-check on the substituted expression even when that expression is the variable itself | `f(y, x)` against `f(x, y)`: after `[x/y]`, the pair `x`, `y` becomes `x` against `x`, and the occurs-check rejects it | an expression equal to the variable needs no binding, giving `[x/y]` | high, not executed | `UnificationExamples.SwappedVariables` | `UnificationExamples.SwappedVariablesCorrected` |
| clause_form.py:39-54 | `standardize_apart` keeps one scope map for the whole formula, so a renaming made inside one quantifier stays in force for its siblings | `for all x, ((for all x, P(x)) and Q(x))` gives `for all x, ((for all z, P(z)) and Q(z))`, where `Q(z)` is no longer bound by the outer quantifier | each quantifier's entry holds only in its body, giving `Q(x)` | high, not executed | `PipelineExamples.SharedScopeCapture` | `Standardize.Standardize` |
| clause_form.py:125-132 | `to_clause_form` iterates the children of the top node as conjuncts, even when the top node is a disjunction or a predicate | `P or Q` gives the clauses `{P}` and `{Q}`, which are false when only `P` holds | a lone disjunction is one clause `{P, Q}`, and a lone predicate is a unit clause | high, not executed | `Clauses.DisjunctionSplitAsWritten` | `Clauses.ToClauseFormMeaning` |
| clause_form.py:56-68 | the names Skolemization avoids come from `get_all_of_type(statement, Function)`, which stops at the first function term and does not look inside quantifiers | `P(f(a)) and there is y with Q(y)`: the nested `a` is not collected, so `y` also becomes `a`, giving `Q(a)`; likewise `there is y with P(a, y)` gives `P(a, a)` when quantifiers hide their children | every function name in the formula is avoided, giving `Q(b)` and `P(a, b)` | high, not executed | `PipelineExamples.SkolemNameClashNested` | `Skolem.SkolemNamesFresh` |
| clause_form.py:85-90 | `discard_forall` replaces a universal by its body and then recurses only into the body's children, so a universal directly under another survives | `for all x, for all y, P(x, y)` gives `for all y, P(x, y)` | every universal is dropped, giving `P(x, y)` | high, not executed | `PipelineExamples.StackedUniversals` | `Skolem.DiscardForAll` |
