/** Generic facts about sequences of sequences. */
module Seqs {

  /** Concatenation of all the inner sequences, in order. */
  function Flatten<T>(xss: seq<seq<T>>): (r: seq<T>)
    ensures |xss| == 0 ==> r == []
  {
    if |xss| == 0 then [] else xss[0] + Flatten(xss[1..])
  }

  /** Flattening distributes over concatenation. */
  lemma {:induction false} FlattenAppend<T>(a: seq<seq<T>>, b: seq<seq<T>>)
    ensures Flatten(a + b) == Flatten(a) + Flatten(b)
  {
    if |a| == 0 {
      assert a + b == b;
    } else {
      assert (a + b)[1..] == a[1..] + b;
      FlattenAppend(a[1..], b);
    }
  }

  /** Flattening a sequence with one more element at the end. */
  lemma FlattenSnoc<T>(a: seq<seq<T>>, x: seq<T>)
    ensures Flatten(a + [x]) == Flatten(a) + x
  {
    FlattenAppend(a, [x]);
    assert Flatten([x]) == x + Flatten([x][1..]);
  }

  /** True when no element occurs twice. */
  predicate Distinct<T(==)>(xs: seq<T>) {
    forall i, j | 0 <= i < j < |xs| :: xs[i] != xs[j]
  }

  function Min(a: int, b: int): int {
    if a <= b then a else b
  }

  function Max(a: int, b: int): int {
    if a <= b then b else a
  }
}
