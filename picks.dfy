/**
 * Index witnesses for filters: a result that keeps some rows of an input, in
 * their input order, is described by the strictly increasing positions of the
 * rows it kept.
 */
module Picks {
  /** `idx` lists positions below `n` in strictly increasing order, so no
      position is used twice and the order of the input is kept. */
  ghost predicate Increasing(idx: seq<nat>, n: nat) {
    && (forall k :: 0 <= k < |idx| ==> idx[k] < n)
    && (forall k, l :: 0 <= k < l < |idx| ==> idx[k] < idx[l])
  }

  /** The positions of a tail, as positions of the whole sequence. */
  function Shift(idx: seq<nat>): (r: seq<nat>)
    ensures |r| == |idx|
    ensures forall k :: 0 <= k < |idx| ==> r[k] == idx[k] + 1
  {
    seq(|idx|, k requires 0 <= k < |idx| => idx[k] + 1)
  }

  /** The positions of a suffix that starts at position `d`, as positions
      of the whole sequence. */
  function ShiftBy(idx: seq<nat>, d: nat): (r: seq<nat>)
    ensures |r| == |idx|
    ensures forall k :: 0 <= k < |idx| ==> r[k] == idx[k] + d
  {
    seq(|idx|, k requires 0 <= k < |idx| => idx[k] + d)
  }

  /** The positions `inner` picks out of `outer`, as positions of what
      `outer` picks from. */
  function Compose(outer: seq<nat>, inner: seq<nat>): (r: seq<nat>)
    requires forall k :: 0 <= k < |inner| ==> inner[k] < |outer|
    ensures |r| == |inner|
    ensures forall k :: 0 <= k < |inner| ==> r[k] == outer[inner[k]]
  {
    seq(|inner|, k requires 0 <= k < |inner| => outer[inner[k]])
  }

  /** Picking twice, in order, is picking once, in order. */
  lemma ComposeIncreasing(outer: seq<nat>, inner: seq<nat>, n: nat)
    requires Increasing(outer, n) && Increasing(inner, |outer|)
    ensures Increasing(Compose(outer, inner), n)
  {
  }

  /** Shifting the positions of a tail gives positions of the whole
      sequence, still increasing, and the head's position may go in front. */
  lemma ShiftIncreasing(idx: seq<nat>, n: nat)
    requires Increasing(idx, n)
    ensures Increasing(Shift(idx), n + 1)
    ensures Increasing([0] + Shift(idx), n + 1)
  {
    var t := [0] + Shift(idx);
    forall k, l | 0 <= k < l < |t|
      ensures t[k] < t[l]
    {
      assert t[l] == Shift(idx)[l - 1];
    }
  }

  /** Rows related to the tail's picks are related at the shifted
      positions. */
  lemma ShiftRelated<A, B>(rows: seq<A>, rest: seq<B>, idx: seq<nat>, rel: (A, B) -> bool)
    requires rows != [] && |idx| == |rest|
    requires forall k :: 0 <= k < |idx| ==> idx[k] < |rows| - 1 && rel(rows[1..][idx[k]], rest[k])
    ensures forall k :: 0 <= k < |idx| ==> rel(rows[Shift(idx)[k]], rest[k])
  {
    forall k | 0 <= k < |idx|
      ensures rel(rows[Shift(idx)[k]], rest[k])
    {
      assert rows[1..][idx[k]] == rows[Shift(idx)[k]];
    }
  }

  /** Tail rows picked at `idx` are picked from the whole sequence at the
      shifted positions. */
  lemma ShiftComplete<A>(rows: seq<A>, idx: seq<nat>, keep: A -> bool)
    requires rows != []
    requires forall i :: 0 <= i < |rows| - 1 && keep(rows[1..][i]) ==> i in idx
    ensures forall i :: 1 <= i < |rows| && keep(rows[i]) ==> i in Shift(idx)
  {
    var tail := Shift(idx);
    forall i | 1 <= i < |rows| && keep(rows[i])
      ensures i in tail
    {
      assert rows[1..][i - 1] == rows[i];
      var k :| 0 <= k < |idx| && idx[k] == i - 1;
      assert tail[k] == i;
    }
  }

  /** One step of a filter that looks at the head of `rows` and then filters
      the tail: if the tail's result `rest` is the picked rows at positions
      `idx` of the tail, each related to its row by `rel`, and every tail row
      that passes `keep` is among them, then the same holds of the whole
      result `r` at the positions this lemma returns. */
  lemma PickStep<A, B>(rows: seq<A>, r: seq<B>, rest: seq<B>, idx: seq<nat>,
                       keep: A -> bool, rel: (A, B) -> bool) returns (picked: seq<nat>)
    requires rows != []
    requires keep(rows[0]) ==> r != [] && rel(rows[0], r[0]) && r[1..] == rest
    requires !keep(rows[0]) ==> r == rest
    requires Increasing(idx, |rows| - 1) && |idx| == |rest|
    requires forall k :: 0 <= k < |idx| ==> rel(rows[1..][idx[k]], rest[k])
    requires forall i :: 0 <= i < |rows| - 1 && keep(rows[1..][i]) ==> i in idx
    ensures Increasing(picked, |rows|) && |picked| == |r|
    ensures forall k :: 0 <= k < |picked| ==> rel(rows[picked[k]], r[k])
    ensures forall i :: 0 <= i < |rows| && keep(rows[i]) ==> i in picked
  {
    var tail := Shift(idx);
    ShiftRelated(rows, rest, idx, rel);
    ShiftComplete(rows, idx, keep);
    ShiftIncreasing(idx, |rows| - 1);
    if keep(rows[0]) {
      picked := [0] + tail;
      PickHead(rows, r, rest, tail, keep, rel);
    } else {
      picked := tail;
      forall i | 0 <= i < |rows| && keep(rows[i])
        ensures i in picked
      {
        assert i != 0;
      }
    }
  }

  /** The head row is kept: its position goes in front of the tail's. */
  lemma PickHead<A, B>(rows: seq<A>, r: seq<B>, rest: seq<B>, tail: seq<nat>, keep: A -> bool, rel: (A, B) -> bool)
    requires rows != [] && keep(rows[0])
    requires r != [] && rel(rows[0], r[0]) && r[1..] == rest && |tail| == |rest|
    requires forall k :: 0 <= k < |tail| ==> tail[k] < |rows| && rel(rows[tail[k]], rest[k])
    requires forall i :: 1 <= i < |rows| && keep(rows[i]) ==> i in tail
    ensures |[0] + tail| == |r|
    ensures forall k :: 0 <= k < |r| ==> rel(rows[([0] + tail)[k]], r[k])
    ensures forall i :: 0 <= i < |rows| && keep(rows[i]) ==> i in [0] + tail
  {
    var picked := [0] + tail;
    forall k | 0 <= k < |r|
      ensures rel(rows[picked[k]], r[k])
    {
      if k > 0 {
        assert picked[k] == tail[k - 1] && r[k] == rest[k - 1];
      }
    }
  }
}
