/** The slicing loop of `upsert_chunks` in `load_data.py`: `range(0, n, batch_size)`
    starts, each taking the slice `[i:i+batch_size]`, with a progress label
    "batch #b out of t" printed per slice. The upload itself is left out. */
module UpsertGroups {
  import opened Wrappers
  import opened Seqs
  import opened Strides

  /** The default `batch_size`. */
  const DefaultGroupSize := 96

  /** Slices of `size` elements starting at `i`, `i + size`, … while the start is inside
      the sequence; Python's slice clips the last one at the end. */
  function GroupsFrom<C>(xs: seq<C>, size: nat, i: nat): seq<seq<C>>
    requires size > 0 && i <= |xs|
    decreases |xs| - i
  {
    if i == |xs| then [] else [xs[i..Min(i + size, |xs|)]] + GroupsFrom(xs, size, Min(i + size, |xs|))
  }

  /** The groups `upsert_chunks` sends: `None` when `range` raises on a zero step, no
      group at all for a negative step (the range is empty). */
  function UpsertGroups<C>(xs: seq<C>, size: int): (r: Option<seq<seq<C>>>)
    ensures r.None? <==> size == 0
    ensures size < 0 ==> r == Some([])
  {
    if size == 0 then None else if size < 0 then Some([]) else Some(GroupsFrom(xs, size, 0))
  }

  /** The groups from `i` concatenate to the rest of the input. */
  lemma {:induction false} GroupsFromFlatten<C>(xs: seq<C>, size: nat, i: nat)
    requires size > 0 && i <= |xs|
    ensures Flatten(GroupsFrom(xs, size, i)) == xs[i..]
    decreases |xs| - i
  {
    if i < |xs| {
      var j := Min(i + size, |xs|);
      GroupsFromFlatten(xs, size, j);
      assert xs[i..] == xs[i..j] + xs[j..];
    }
  }

  /** Every group from `i` but the last holds exactly `size` elements; the last holds
      between one and `size`; the count is the number of strides. */
  lemma {:induction false} GroupsFromShape<C>(xs: seq<C>, size: nat, i: nat)
    requires size > 0 && i <= |xs|
    ensures var g := GroupsFrom(xs, size, i);
      && |g| == StrideCount(|xs| - i, size)
      && (forall k | 0 <= k < |g| - 1 :: |g[k]| == size)
      && (|g| > 0 ==> 0 < |g[|g| - 1]| <= size)
    decreases |xs| - i
  {
    if i < |xs| {
      var j := Min(i + size, |xs|);
      GroupsFromShape(xs, size, j);
      var g := GroupsFrom(xs, size, i);
      var rest := GroupsFrom(xs, size, j);
      assert g == [xs[i..j]] + rest;
      forall k | 0 <= k < |g| - 1
        ensures |g[k]| == size
      {
        if k > 0 {
          assert g[k] == rest[k - 1];
        }
      }
    }
  }

  /** Group `k` (counted from `i`) is the slice starting `k` strides after `i`. */
  lemma {:induction false} GroupsFromAt<C>(xs: seq<C>, size: nat, i: nat, k: nat)
    requires size > 0 && i <= |xs|
    requires k < |GroupsFrom(xs, size, i)|
    ensures i + Offset(k, size) < |xs|
    ensures GroupsFrom(xs, size, i)[k] == xs[i + Offset(k, size)..Min(i + Offset(k, size) + size, |xs|)]
    decreases k
  {
    var j := Min(i + size, |xs|);
    if k > 0 {
      GroupsFromAt(xs, size, j, k - 1);
      assert j == i + size;
    }
  }

  /** `upsert_chunks` with a positive `batch_size` conserves its input, fills every group
      but the last, and sends the ceiling of `n / batch_size` groups, group `k` being the
      slice at `k * batch_size`. */
  lemma GroupsConserve<C>(xs: seq<C>, size: int, groups: seq<seq<C>>)
    requires size > 0 && UpsertGroups(xs, size) == Some(groups)
    ensures Flatten(groups) == xs
    ensures |groups| == CeilDiv(|xs|, size)
    ensures forall k | 0 <= k < |groups| - 1 :: |groups[k]| == size
    ensures |groups| > 0 ==> 0 < |groups[|groups| - 1]| <= size
    ensures forall k | 0 <= k < |groups| :: k * size < |xs| && groups[k] == xs[k * size..Min(k * size + size, |xs|)]
  {
    GroupsFromFlatten(xs, size, 0);
    GroupsShape(xs, size);
    GroupSlices(xs, size);
  }

  /** The shape of the groups from the start, with the count as a ceiling. */
  lemma GroupsShape<C>(xs: seq<C>, size: nat)
    requires size > 0
    ensures var g := GroupsFrom(xs, size, 0);
      && |g| == CeilDiv(|xs|, size)
      && (forall k | 0 <= k < |g| - 1 :: |g[k]| == size)
      && (|g| > 0 ==> 0 < |g[|g| - 1]| <= size)
  {
    GroupsFromShape(xs, size, 0);
    StrideCountIsCeil(|xs|, size);
  }

  /** Every group from the start is the slice at its offset. */
  lemma GroupSlices<C>(xs: seq<C>, size: nat)
    requires size > 0
    ensures var g := GroupsFrom(xs, size, 0);
      forall k | 0 <= k < |g| :: k * size < |xs| && g[k] == xs[k * size..Min(k * size + size, |xs|)]
  {
    var g := GroupsFrom(xs, size, 0);
    forall k | 0 <= k < |g|
      ensures k * size < |xs| && g[k] == xs[k * size..Min(k * size + size, |xs|)]
    {
      GroupSlice(xs, size, k);
    }
  }

  /** Group `k` is the slice at `k * size`. */
  lemma GroupSlice<C>(xs: seq<C>, size: nat, k: nat)
    requires size > 0 && k < |GroupsFrom(xs, size, 0)|
    ensures k * size < |xs| && GroupsFrom(xs, size, 0)[k] == xs[k * size..Min(k * size + size, |xs|)]
  {
    GroupsFromAt(xs, size, 0, k);
    OffsetIsProduct(k, size);
  }

  // ----- The progress label -----

  /** "upserting batch #b out of t" as written: the batch number is `int(i/size) + 1` and
      the total is `int(n/size)`, which truncates to the floor of the quotient. */
  function ProgressLabelAsWritten(i: nat, n: nat, size: nat): (nat, nat)
    requires size > 0
  {
    (i / size + 1, n / size)
  }

  /** The label with the total the loop actually runs: the ceiling of `n / size`. */
  function ProgressLabel(i: nat, n: nat, size: nat): (nat, nat)
    requires size > 0
  {
    (i / size + 1, CeilDiv(n, size))
  }

  /** As written, 100 chunks in groups of the default size 96 announce "batch #2 out of 1". */
  lemma AsWrittenLabelOverruns()
    ensures |GroupsFrom(seq(100, k => k), DefaultGroupSize, 0)| == 2
    ensures ProgressLabelAsWritten(DefaultGroupSize, 100, DefaultGroupSize) == (2, 1)
  {
    var xs := seq(100, k => k);
    assert GroupsFrom(xs, 96, 96) == [xs[96..100]] + GroupsFrom(xs, 96, 100);
  }

  /** As written the announced total equals the number of groups exactly when the group
      size divides the input length. */
  lemma AsWrittenTotalExactIff(n: nat, size: nat)
    requires size > 0
    ensures ProgressLabelAsWritten(0, n, size).1 == CeilDiv(n, size) <==> n % size == 0
  {
    var q, r := n / size, n % size;
    if r == 0 {
      DivUnique(n + size - 1, size, q, size - 1);
    } else {
      DivUnique(n + size - 1, size, q + 1, r - 1);
    }
  }

  /** The corrected label numbers the groups 1 to t and the last group is "t out of t". */
  lemma LabelsCountGroups<C>(xs: seq<C>, size: int, groups: seq<seq<C>>, k: nat)
    requires size > 0 && UpsertGroups(xs, size) == Some(groups)
    requires k < |groups|
    ensures ProgressLabel(k * size, |xs|, size) == (k + 1, |groups|)
    ensures 1 <= k + 1 <= |groups|
  {
    GroupsConserve(xs, size, groups);
    DivUnique(k * size, size, k, 0);
  }

  /** The start of stride `k` divided by the stride is `k`. */
  lemma OffsetQuotient(k: nat, size: nat)
    requires size > 0
    ensures Offset(k, size) / size == k
  {
    OffsetIsProduct(k, size);
    DivUnique(k * size, size, k, 0);
  }

  lemma GroupsCount<C>(xs: seq<C>, size: nat)
    requires size > 0
    ensures |GroupsFrom(xs, size, 0)| == CeilDiv(|xs|, size)
  {
    GroupsFromShape(xs, size, 0);
    StrideCountIsCeil(|xs|, size);
  }

  lemma GroupsFromUnfold<C>(xs: seq<C>, size: nat, i: nat)
    requires size > 0 && i < |xs|
    ensures GroupsFrom(xs, size, i) == [xs[i..Min(i + size, |xs|)]] + GroupsFrom(xs, size, Min(i + size, |xs|))
  {
  }

  /** The loop of `upsert_chunks`: one slice per start of `range(0, n, batch_size)`, each
      announced with the label as printed, whose total is the floor of `n / batch_size`.
      That total is the number of slices exactly when `batch_size` divides `n`. A zero
      `batch_size` raises. */
  method UpsertChunks<C>(xs: seq<C>, size: int) returns (r: Option<seq<seq<C>>>, labels: seq<(nat, nat)>)
    ensures r == UpsertGroups(xs, size)
    ensures size > 0 ==> r.Some? && Flatten(r.value) == xs
    ensures r.Some? ==> |labels| == |r.value|
    ensures size > 0 ==> forall k | 0 <= k < |labels| :: labels[k] == (k + 1, |xs| / size)
    ensures size > 0 && |labels| > 0 ==> (labels[0].1 == |labels| <==> |xs| % size == 0)
  {
    if size == 0 {
      return None, [];
    }
    if size < 0 {
      return Some([]), [];
    }
    var groups;
    groups, labels := SliceLoop(xs, size);
    GroupsFromFlatten(xs, size, 0);
    GroupsCount(xs, size);
    AsWrittenTotalExactIff(|xs|, size);
    r := Some(groups);
  }

  /** The `range` loop for a positive step, printing "batch #b out of t" as written. */
  method SliceLoop<C>(xs: seq<C>, size: nat) returns (groups: seq<seq<C>>, labels: seq<(nat, nat)>)
    requires size > 0
    ensures groups == GroupsFrom(xs, size, 0)
    ensures |labels| == |groups|
    ensures forall k | 0 <= k < |labels| :: labels[k] == (k + 1, |xs| / size)
  {
    var total := |xs| / size;
    groups := [];
    labels := [];
    var i := 0;
    while i < |xs|
      invariant i <= |xs|
      invariant groups + GroupsFrom(xs, size, i) == GroupsFrom(xs, size, 0)
      invariant i == Offset(|groups|, size)
      invariant |labels| == |groups|
      invariant forall k | 0 <= k < |labels| :: labels[k] == (k + 1, total)
      decreases |xs| - i
    {
      OffsetQuotient(|groups|, size);
      labels := labels + [ProgressLabelAsWritten(i, |xs|, size)];
      var j := Min(i + size, |xs|);
      GroupsFromUnfold(xs, size, i);
      groups := groups + [xs[i..j]];
      if j == |xs| {
        assert GroupsFrom(xs, size, j) == [];
        break;
      }
      i := i + size;
    }
  }
}
