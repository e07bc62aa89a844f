/** `extractPreviousMoves`: the move-history ring a State packet carries, 5-byte slots of a
    big-endian timestamp followed by a move code, read from the end of the ring backwards. */
module RingHistory {
  import opened Base
  import opened CubeMoves

  /** The byte that marks an empty slot. */
  const EmptySlot: byte := 255

  /** The length of the ring decodePacket hands over: bytes 36 to 91 of a State packet. */
  const RingLength: nat := 55

  /** The positions of the move bytes the walk keeps, starting at `i` and stepping back by
      five: newest slot first, empty slots skipped. */
  function KeptEnds(prev: seq<byte>, i: int): (ends: seq<nat>)
    requires i < |prev|
    ensures forall k :: 0 <= k < |ends| ==> ends[k] < |prev|
    decreases i + 1
  {
    if i < 0 then []
    else (if prev[i] == EmptySlot then [] else [i as nat]) + KeptEnds(prev, i - 5)
  }

  /** The slot ends of the whole ring, walked from its last byte. */
  function Ends(prev: seq<byte>): (ends: seq<nat>)
    ensures forall k :: 0 <= k < |ends| ==> ends[k] < |prev|
  {
    KeptEnds(prev, |prev| - 1)
  }

  /** The timestamp of the slot whose move byte is at `i`: the four bytes before it, as a
      signed 32-bit big-endian value; bytes before the start of the ring read as 0. */
  function TimestampBefore(prev: seq<byte>, i: int): int
  {
    Int32BE(ByteOrZero(prev, i - 4), ByteOrZero(prev, i - 3), ByteOrZero(prev, i - 2), ByteOrZero(prev, i - 1))
  }

  /** The labels of the kept slots, newest first; a code MOVES does not map gives an absent
      label. */
  function RingMoves(prev: seq<byte>): (moves: seq<Option<Move>>)
    ensures |moves| == |Ends(prev)|
  {
    seq(|Ends(prev)|, k requires 0 <= k < |Ends(prev)| => MoveOf(prev[Ends(prev)[k]]))
  }

  /** The timestamps of the kept slots, newest first. */
  function RingTimestamps(prev: seq<byte>): (timestamps: seq<int>)
    ensures |timestamps| == |Ends(prev)|
  {
    seq(|Ends(prev)|, k requires 0 <= k < |Ends(prev)| => TimestampBefore(prev, Ends(prev)[k]))
  }

  /** `extractPreviousMoves(prev)`: one entry per non-empty slot, newest first. A move code
      MOVES does not map still yields an entry, with an absent label. */
  method ExtractPreviousMoves(prev: seq<byte>) returns (moves: seq<Option<Move>>, timestamps: seq<int>)
    ensures |moves| == |timestamps| == |Ends(prev)|
    ensures forall k :: 0 <= k < |moves| ==>
      moves[k] == MoveOf(prev[Ends(prev)[k]]) && timestamps[k] == TimestampBefore(prev, Ends(prev)[k])
    ensures moves == RingMoves(prev) && timestamps == RingTimestamps(prev)
  {
    moves, timestamps := [], [];
    ghost var visited: seq<nat> := [];
    var i: int := |prev| - 1;
    while i >= 0
      invariant -5 <= i < |prev|
      invariant Ends(prev) == visited + KeptEnds(prev, i)
      invariant |moves| == |timestamps| == |visited|
      invariant forall k :: 0 <= k < |visited| ==>
        visited[k] < |prev| && moves[k] == MoveOf(prev[visited[k]]) && timestamps[k] == TimestampBefore(prev, visited[k])
      decreases i + 1
    {
      var move := prev[i];
      if move == EmptySlot {
        assert KeptEnds(prev, i) == KeptEnds(prev, i - 5);
        i := i - 5;
        continue;
      }
      var timestamp := Int32BE(ByteOrZero(prev, i - 4), ByteOrZero(prev, i - 3), ByteOrZero(prev, i - 2), ByteOrZero(prev, i - 1));
      assert KeptEnds(prev, i) == [i as nat] + KeptEnds(prev, i - 5);
      visited := visited + [i as nat];
      moves := moves + [MoveOf(move)];
      timestamps := timestamps + [timestamp];
      i := i - 5;
    }
    assert visited == Ends(prev);
  }

  /** Every kept position is a non-empty move byte at or below `i`, a whole number of
      slots away from it. */
  lemma {:induction false} KeptEndsAreSlots(prev: seq<byte>, i: int)
    requires i < |prev|
    ensures forall k :: 0 <= k < |KeptEnds(prev, i)| ==>
      KeptEnds(prev, i)[k] <= i && (i - KeptEnds(prev, i)[k]) % 5 == 0 && prev[KeptEnds(prev, i)[k]] != EmptySlot
    decreases i + 1
  {
    if i >= 0 {
      KeptEndsAreSlots(prev, i - 5);
      var head: seq<nat> := if prev[i] == EmptySlot then [] else [i as nat];
      var tail := KeptEnds(prev, i - 5);
      var ends := KeptEnds(prev, i);
      assert ends == head + tail;
      forall k | 0 <= k < |ends|
        ensures ends[k] <= i && (i - ends[k]) % 5 == 0 && prev[ends[k]] != EmptySlot
      {
        if k >= |head| {
          var e := tail[k - |head|];
          assert ends[k] == e;
          assert (i - 5 - e) % 5 == 0;
        }
      }
    }
  }

  /** The kept positions are strictly decreasing: newest slot first. */
  lemma {:induction false} KeptEndsDecrease(prev: seq<byte>, i: int)
    requires i < |prev|
    ensures forall k :: 0 <= k < |KeptEnds(prev, i)| ==> KeptEnds(prev, i)[k] <= i
    ensures forall k, l :: 0 <= k < l < |KeptEnds(prev, i)| ==> KeptEnds(prev, i)[k] > KeptEnds(prev, i)[l]
    decreases i + 1
  {
    if i >= 0 {
      KeptEndsDecrease(prev, i - 5);
      var head: seq<nat> := if prev[i] == EmptySlot then [] else [i as nat];
      var tail := KeptEnds(prev, i - 5);
      var ends := KeptEnds(prev, i);
      assert ends == head + tail;
      forall k | 0 <= k < |ends| ensures ends[k] <= i {
        if k >= |head| { assert ends[k] == tail[k - |head|]; }
      }
      forall k, l | 0 <= k < l < |ends| ensures ends[k] > ends[l] {
        assert ends[l] == tail[l - |head|];
        if k >= |head| { assert ends[k] == tail[k - |head|]; }
      }
    }
  }

  /** No non-empty slot is skipped. */
  lemma {:induction false} KeptEndsComplete(prev: seq<byte>, i: int, j: int)
    requires i < |prev|
    requires 0 <= j <= i && (i - j) % 5 == 0 && prev[j] != EmptySlot
    ensures j in KeptEnds(prev, i)
    decreases i + 1
  {
    var head: seq<nat> := if prev[i] == EmptySlot then [] else [i as nat];
    assert KeptEnds(prev, i) == head + KeptEnds(prev, i - 5);
    if j < i {
      assert (i - 5 - j) % 5 == 0;
      KeptEndsComplete(prev, i - 5, j);
    } else {
      assert KeptEnds(prev, i)[0] == j;
    }
  }

  /** A ring without empty slots yields one entry per slot, the k-th from the end at
      position i - 5k. */
  lemma {:induction false} FullRingEnds(prev: seq<byte>, i: int)
    requires i < |prev|
    requires forall j :: 0 <= j <= i ==> prev[j] != EmptySlot
    ensures |KeptEnds(prev, i)| == if i < 0 then 0 else i / 5 + 1
    ensures forall k :: 0 <= k < |KeptEnds(prev, i)| ==> KeptEnds(prev, i)[k] == i - 5 * k
    decreases i + 1
  {
    if i >= 0 {
      FullRingEnds(prev, i - 5);
      assert KeptEnds(prev, i) == [i as nat] + KeptEnds(prev, i - 5);
    }
  }

  /** The 55-byte ring of a State packet holds at most eleven slots, and every kept slot has
      four whole timestamp bytes before its move byte. */
  lemma RingHasElevenSlots(prev: seq<byte>)
    requires |prev| == RingLength
    ensures |Ends(prev)| <= 11
    ensures forall k :: 0 <= k < |Ends(prev)| ==>
      4 <= Ends(prev)[k] && TimestampBefore(prev, Ends(prev)[k]) ==
        Int32BE(prev[Ends(prev)[k] - 4], prev[Ends(prev)[k] - 3], prev[Ends(prev)[k] - 2], prev[Ends(prev)[k] - 1])
  {
    var top := |prev| - 1;
    KeptEndsAreSlots(prev, top);
    KeptEndsDecrease(prev, top);
    var ends := Ends(prev);
    forall k | 0 <= k < |ends| ensures 4 <= ends[k] {
      assert (top - ends[k]) % 5 == 0;
    }
    if |ends| > 0 {
      EndsStepDown(ends, top, |ends| - 1);
    }
  }

  /** A full 55-byte ring yields eleven entries, with move bytes at 54, 49, ..., 4. */
  lemma FullRingHasElevenEntries(prev: seq<byte>)
    requires |prev| == RingLength
    requires forall j :: 0 <= j < |prev| ==> prev[j] != EmptySlot
    ensures |Ends(prev)| == 11
    ensures forall k :: 0 <= k < 11 ==> Ends(prev)[k] == 54 - 5 * k
  {
    FullRingEnds(prev, |prev| - 1);
  }

  /** In a strictly decreasing list of positions congruent modulo 5 and at most `top`, the
      k-th is at most top - 5k. */
  lemma {:induction false} EndsStepDown(ends: seq<nat>, top: int, k: nat)
    requires k < |ends|
    requires forall m :: 0 <= m < |ends| ==> ends[m] <= top && (top - ends[m]) % 5 == 0
    requires forall m, l :: 0 <= m < l < |ends| ==> ends[m] > ends[l]
    ensures ends[k] <= top - 5 * k
  {
    if k > 0 {
      EndsStepDown(ends, top, k - 1);
      assert (ends[k - 1] - ends[k]) % 5 == 0 by {
        assert (top - ends[k - 1]) % 5 == 0 && (top - ends[k]) % 5 == 0;
      }
    }
  }
}
