/** The fresh-name service: `get_new_variable` and `get_new_constant`. Each walks a fixed
    list of candidate names (one letter, then the letter doubled, and so on up to four
    copies) and returns the first one not yet in use. */
module Names {
  /** The length of the longest name in `used`. */
  function MaxLen(used: seq<string>): (m: nat)
    ensures forall i :: 0 <= i < |used| ==> |used[i]| <= m
  {
    if used == [] then 0
    else
      var rest := MaxLen(used[1..]);
      if |used[0]| > rest then |used[0]| else rest
  }

  function Repeat(c: char, n: nat): (r: string)
    ensures |r| == n
    ensures forall i :: 0 <= i < n ==> r[i] == c
  {
    if n == 0 then [] else [c] + Repeat(c, n - 1)
  }

  /** The letters `get_new_variable` draws from, `z` down to `l`, and those
      `get_new_constant` draws from, `a` up to `j`. */
  const VariableLetters: string := "zyxwvutsrqponml"
  const ConstantLetters: string := "abcdefghij"

  /** Each letter repeated `n` times, in the order of the letters. */
  function Runs(letters: string, n: nat): (r: seq<string>)
    ensures |r| == |letters|
    ensures forall i :: 0 <= i < |letters| ==> r[i] == Repeat(letters[i], n)
  {
    seq(|letters|, i requires 0 <= i < |letters| => Repeat(letters[i], n))
  }

  /** The candidate names in the order the source tries them: every letter once, then every
      letter doubled, up to four copies. */
  function Candidates(letters: string): (r: seq<string>)
    ensures |r| == 4 * |letters|
    ensures forall i :: 0 <= i < |letters| ==> r[i] == [letters[i]]
  {
    var r := Runs(letters, 1) + Runs(letters, 2) + Runs(letters, 3) + Runs(letters, 4);
    assert forall i :: 0 <= i < |letters| ==> r[i] == Runs(letters, 1)[i] == [letters[i]];
    r
  }

  function VariableCandidates(): (r: seq<string>)
    ensures |r| == 60
  {
    Candidates(VariableLetters)
  }

  function ConstantCandidates(): (r: seq<string>)
    ensures |r| == 40
  {
    Candidates(ConstantLetters)
  }

  /** The position of the first candidate not in `used`, or `|cands|` when all are taken. */
  function FirstUnused(cands: seq<string>, used: seq<string>): (i: nat)
    ensures i <= |cands|
    ensures forall j :: 0 <= j < i ==> cands[j] in used
    ensures i < |cands| ==> cands[i] !in used
  {
    if cands == [] then 0
    else if cands[0] !in used then 0
    else 1 + FirstUnused(cands[1..], used)
  }

  /** The first candidate not in `used`; once every candidate is taken, a run of `base`
      letters longer than any name in use. */
  function FreshName(cands: seq<string>, used: seq<string>, base: char): (r: string)
    ensures r !in used
    ensures forall j :: 0 <= j < |cands| && cands[j] !in used ==> r in cands[..j + 1]
  {
    var i := FirstUnused(cands, used);
    if i < |cands| then cands[i] else Repeat(base, MaxLen(used) + 1)
  }

  /** `get_new_variable`: the earliest unused name counting down from `z`. */
  function NewVariable(used: seq<string>): (r: string)
    ensures r !in used
    ensures forall j :: 0 <= j < 60 && VariableCandidates()[j] !in used ==> r in VariableCandidates()[..j + 1]
  {
    FreshName(VariableCandidates(), used, 'z')
  }

  /** `get_new_constant`: the earliest unused name counting up from `a`. */
  function NewConstant(used: seq<string>): (r: string)
    ensures r !in used
    ensures forall j :: 0 <= j < 40 && ConstantCandidates()[j] !in used ==> r in ConstantCandidates()[..j + 1]
  {
    FreshName(ConstantCandidates(), used, 'a')
  }

  /** `z` is the fresh variable whenever it is unused. */
  lemma NewVariableFirst(used: seq<string>)
    requires "z" !in used
    ensures NewVariable(used) == "z"
  {
    assert VariableCandidates()[0] == "z";
  }

  /** `a` is the Skolem name whenever it is unused, and `b` when only `a` is taken. */
  lemma NewConstantFirst(used: seq<string>)
    requires "a" !in used
    ensures NewConstant(used) == "a"
  {
    assert ConstantCandidates()[0] == "a";
  }

  lemma NewConstantSecond(used: seq<string>)
    requires "a" in used && "b" !in used
    ensures NewConstant(used) == "b"
  {
    var cs := ConstantCandidates();
    assert cs[0] == "a" && cs[1] == "b";
    assert cs[1..][0] == cs[1];
  }
}
