/** Failure-carrying values shared by the modules of this model. */
module Common {

  /** A value that may be missing; `None` stands for the source's `False`/`None` returns. */
  datatype Option<+T> = None | Some(value: T)

  /** The errors the modelled code can raise. */
  datatype Error =
    | NameError                       // `unify` evaluating the undefined name `false`
    | UnboundVariable(name: string)   // a `KeyError` on the scope map of standardize-apart
    | NotAConjunction                 // clause extraction on a node without sub-formulas
    | NotALiteral                     // clause extraction meets a conjunct that is not made of literals
    | MissingChildren                 // an `AttributeError`: `get_children` on a node that has none
    | Unhashable                      // a `TypeError`: a `set` of terms, whose classes define `__eq__` but no `__hash__`

  datatype Result<+T> = Ok(value: T) | Err(error: Error)

  /** No string occurs twice in `s`. */
  predicate NoDuplicates(s: seq<string>)
  {
    forall i, j :: 0 <= i < j < |s| ==> s[i] != s[j]
  }

  /** A name not in a duplicate-free list can go in front of it. */
  lemma NoDuplicatesCons(x: string, s: seq<string>)
    requires NoDuplicates(s) && x !in s
    ensures NoDuplicates([x] + s)
  {
    var t := [x] + s;
    forall i, j | 0 <= i < j < |t| ensures t[i] != t[j] {
      assert t[j] == s[j - 1];
      if i > 0 { assert t[i] == s[i - 1]; }
    }
  }
}
