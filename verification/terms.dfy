/** Terms and atomic formulas: the `Variable`, `Function` and `Predicate` classes. */
module Terms {

  /** A `Variable(name)` or a `Function(name, *children)`; a zero-argument function is a constant. */
  datatype Term = Var(name: string) | Fn(name: string, args: seq<Term>)

  /** An atomic formula `Predicate(name, *children, negated)`. */
  datatype Predicate = Predicate(name: string, args: seq<Term>, negated: bool)

  /** The equality the classes define: a `Function` equals another `Function` with the same
      name and pairwise-equal argument lists, a `Variable` equals a `Variable` of the same
      name, and a variable never equals a function. */
  predicate TermEq(a: Term, b: Term)
  {
    match a
    case Var(n) => b.Var? && b.name == n
    case Fn(n, xs) =>
      && b.Fn? && b.name == n && |xs| == |b.args|
      && forall i :: 0 <= i < |xs| ==> TermEq(xs[i], b.args[i])
  }

  /** The class-defined equality is exactly structural equality of terms. */
  lemma {:induction false} TermEqIsEquality(a: Term, b: Term)
    ensures TermEq(a, b) <==> a == b
  {
    match a
    case Var(n) =>
    case Fn(n, xs) =>
      if b.Fn? && b.name == n && |xs| == |b.args| {
        forall i | 0 <= i < |xs|
          ensures TermEq(xs[i], b.args[i]) <==> xs[i] == b.args[i]
        {
          TermEqIsEquality(xs[i], b.args[i]);
        }
        if forall i :: 0 <= i < |xs| ==> xs[i] == b.args[i] {
          assert xs == b.args;
        }
      }
  }

  /** The names of the variables that occur in a term. */
  ghost function Vars(t: Term): set<string>
  {
    match t
    case Var(n) => {n}
    case Fn(_, xs) => ArgsVars(xs)
  }

  ghost function ArgsVars(ts: seq<Term>): set<string>
  {
    set i, x | 0 <= i < |ts| && x in Vars(ts[i]) :: x
  }

  /** The variables of an argument list are those of its head and those of its tail. */
  lemma ArgsVarsSplit(ts: seq<Term>)
    requires |ts| > 0
    ensures ArgsVars(ts) == Vars(ts[0]) + ArgsVars(ts[1..])
  {
    forall x | x in ArgsVars(ts) ensures x in Vars(ts[0]) + ArgsVars(ts[1..]) {
      var i :| 0 <= i < |ts| && x in Vars(ts[i]);
      if i > 0 { assert ts[1..][i - 1] == ts[i]; }
    }
    forall x | x in ArgsVars(ts[1..]) ensures x in ArgsVars(ts) {
      var i :| 0 <= i < |ts[1..]| && x in Vars(ts[1..][i]);
      assert ts[1..][i] == ts[i + 1];
    }
  }

  /** `occurs_in`: the expression is the variable, or the variable occurs in one of its children. */
  predicate Occurs(v: string, t: Term)
  {
    t == Var(v) || (t.Fn? && exists i :: 0 <= i < |t.args| && Occurs(v, t.args[i]))
  }

  /** The occurs-check decides membership in the variables of the term. */
  lemma {:induction false} OccursIffInVars(v: string, t: Term)
    ensures Occurs(v, t) <==> v in Vars(t)
  {
    match t
    case Var(n) =>
    case Fn(n, xs) =>
      forall i | 0 <= i < |xs|
        ensures Occurs(v, xs[i]) <==> v in Vars(xs[i])
      {
        OccursIffInVars(v, xs[i]);
      }
  }

  /** `Predicate.negate`: toggles the polarity and keeps name and arguments. */
  function Negate(p: Predicate): (r: Predicate)
    ensures r.negated != p.negated
    ensures r.name == p.name && r.args == p.args
  {
    p.(negated := !p.negated)
  }

  lemma NegateTwice(p: Predicate)
    ensures Negate(Negate(p)) == p
  {
  }

  /** Replace every occurrence of variable `v` in `t` by `r`. */
  function Replace(t: Term, v: string, r: Term): Term
  {
    match t
    case Var(n) => if n == v then r else t
    case Fn(n, xs) => Fn(n, seq(|xs|, i requires 0 <= i < |xs| => Replace(xs[i], v, r)))
  }

  /** Every variable with an entry in `m` renamed to that entry; the others kept. */
  function RenameVars(t: Term, m: map<string, string>): Term
  {
    match t
    case Var(n) => if n in m then Var(m[n]) else t
    case Fn(n, xs) => Fn(n, seq(|xs|, i requires 0 <= i < |xs| => RenameVars(xs[i], m)))
  }

  function RenameAll(xs: seq<Term>, m: map<string, string>): seq<Term>
  {
    seq(|xs|, i requires 0 <= i < |xs| => RenameVars(xs[i], m))
  }
}
