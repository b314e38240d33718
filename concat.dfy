/**
  Per-element concatenation: both stages of the pipeline map each input
  character to a (possibly empty) piece of output and join the pieces in
  input order.
 */
module Concat {

  /** The pieces f(s[0]), f(s[1]), ... joined in order, built left to right. */
  function FlatMap<T, U>(f: T -> seq<U>, s: seq<T>): seq<U>
    decreases |s|
  {
    if s == [] then [] else FlatMap(f, s[..|s| - 1]) + f(s[|s| - 1])
  }

  /** Dropping the last element of s + t drops the last element of t. */
  lemma DropLastOfAppend<T>(s: seq<T>, t: seq<T>)
    requires t != []
    ensures s + t != []
    ensures (s + t)[..|s + t| - 1] == s + t[..|t| - 1]
    ensures (s + t)[|s + t| - 1] == t[|t| - 1]
  {
  }

  /** FlatMap distributes over concatenation. */
  lemma {:induction false} FlatMapAppend<T, U>(f: T -> seq<U>, s: seq<T>, t: seq<T>)
    ensures FlatMap(f, s + t) == FlatMap(f, s) + FlatMap(f, t)
    decreases |t|
  {
    if t == [] {
      assert s + t == s;
      assert FlatMap(f, t) == [];
    } else {
      var t', x := t[..|t| - 1], t[|t| - 1];
      DropLastOfAppend(s, t);
      FlatMapAppend(f, s, t');
      var A, B, C := FlatMap(f, s), FlatMap(f, t'), f(x);
      assert FlatMap(f, s + t) == FlatMap(f, s + t') + C;
      assert FlatMap(f, t) == B + C;
      assert (A + B) + C == A + (B + C);
    }
  }

  /** A one-element sequence maps to its one piece. */
  lemma FlatMapSingle<T, U>(f: T -> seq<U>, x: T)
    ensures FlatMap(f, [x]) == f(x)
  {
    assert [x][..0] == [];
  }

  /** One more element adds its piece at the end; this is the step of a loop over s. */
  lemma FlatMapStep<T, U>(f: T -> seq<U>, s: seq<T>, i: nat)
    requires i < |s|
    ensures FlatMap(f, s[..i + 1]) == FlatMap(f, s[..i]) + f(s[i])
  {
    assert s[..i + 1][..i] == s[..i];
  }

  /** A nonempty sequence maps to its first element's piece followed by the rest's. */
  lemma FlatMapFront<T, U>(f: T -> seq<U>, s: seq<T>)
    requires s != []
    ensures FlatMap(f, s) == f(s[0]) + FlatMap(f, s[1..])
  {
    assert s == [s[0]] + s[1..];
    FlatMapAppend(f, [s[0]], s[1..]);
    FlatMapSingle(f, s[0]);
  }
}
