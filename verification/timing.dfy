/** `cubeTimestampLinearFit`: fills missing cube and host timestamps of a window of moves in
    place, 50 ms per move away from the nearest known value, then maps the cube timestamps
    through a fitted line and re-bases them so the first move is at 0. */
module Timing {
  import opened Base
  import opened CubeMoves

  /** The assumed gap between two consecutive moves, in milliseconds. */
  const Step: int := 50

  /** The two timestamp fields of a move event. */
  datatype Column = CubeClock | HostClock

  function Get(e: MoveEvent, c: Column): Option<int>
  {
    match c
    case CubeClock => e.cubeTimestamp
    case HostClock => e.localTimestamp
  }

  /** `e` with the field of column `c` set to `v`, the other fields kept. */
  function Put(e: MoveEvent, c: Column, v: Option<int>): (r: MoveEvent)
    ensures Get(r, c) == v && r.move == e.move
    ensures Get(r, Other(c)) == Get(e, Other(c))
  {
    match c
    case CubeClock => e.(cubeTimestamp := v)
    case HostClock => e.(localTimestamp := v)
  }

  /** One column of a window, in order. */
  function ColumnOf(s: seq<MoveEvent>, c: Column): (col: seq<Option<int>>)
    ensures |col| == |s| && forall i :: 0 <= i < |s| ==> col[i] == Get(s[i], c)
  {
    seq(|s|, i requires 0 <= i < |s| => Get(s[i], c))
  }

  /** The tail-to-head pass on one column: a missing value takes the value after it, as
      filled, minus one step. */
  function BackFill(col: seq<Option<int>>): (r: seq<Option<int>>)
    ensures |r| == |col|
  {
    if col == [] then []
    else
      var rest := BackFill(col[1..]);
      [if col[0].Some? then col[0] else if rest != [] && rest[0].Some? then Some(rest[0].value - Step) else None] + rest
  }

  /** The head-to-tail pass on one column: a missing value takes the value before it, as
      filled, plus one step. */
  function ForwardFill(col: seq<Option<int>>): (r: seq<Option<int>>)
    ensures |r| == |col|
  {
    if col == [] then []
    else
      var init := ForwardFill(col[..|col| - 1]);
      var last := col[|col| - 1];
      init + [if last.Some? then last else if init != [] && init[|init| - 1].Some? then Some(init[|init| - 1].value + Step) else None]
  }

  /** Both passes on one column; they run only for windows of at least two moves. */
  function Fill(col: seq<Option<int>>): (r: seq<Option<int>>)
    ensures |r| == |col|
  {
    if |col| >= 2 then ForwardFill(BackFill(col)) else col
  }

  /** The window after the four passes: each column filled on its own, moves kept. */
  function Filled(s: seq<MoveEvent>): (r: seq<MoveEvent>)
    ensures |r| == |s|
  {
    var cube, host := Fill(ColumnOf(s, CubeClock)), Fill(ColumnOf(s, HostClock));
    seq(|s|, i requires 0 <= i < |s| => MoveEvent(s[i].move, cube[i], host[i]))
  }

  /** An entry of the result. An absent cubeTimestamp stands for NaN, what the arithmetic
      gives when a cube timestamp is undefined. */
  datatype FittedMove = FittedMove(move: Option<Move>, cubeTimestamp: Option<int>, localTimestamp: Option<int>)

  /** `linregress` on the cube and host columns followed by `Math.round(slope * x +
      intercept)`: the rounded fitted host time of a cube time x. */
  type Regression = (seq<Option<int>>, seq<Option<int>>) -> (int -> int)

  /** The rounded fitted value of a cube timestamp; NaN when it is undefined. */
  function Fitted(f: int -> int, c: Option<int>): Option<int>
  {
    if c.Some? then Some(f(c.value)) else None
  }

  /** The cube timestamp of an entry, re-based by the first entry's fitted value. */
  function Rebased(f: int -> int, c: Option<int>, first: Option<int>): Option<int>
  {
    if c.Some? && first.Some? then Some(f(c.value) - first.value) else None
  }

  /** The result list the fit builds from a filled window. */
  function LinearFit(s: seq<MoveEvent>, fit: Regression): (res: seq<FittedMove>)
    ensures |res| == |s|
  {
    if s == [] then []
    else
      var f := fit(ColumnOf(s, CubeClock), ColumnOf(s, HostClock));
      var first := Fitted(f, s[0].cubeTimestamp);
      seq(|s|, i requires 0 <= i < |s| => FittedMove(s[i].move, Rebased(f, s[i].cubeTimestamp, first), s[i].localTimestamp))
  }

  /** The column a pass over `c` leaves alone. */
  function Other(c: Column): Column
  {
    if c == CubeClock then HostClock else CubeClock
  }

  /** Two windows with the same moves and the same columns are the same window. */
  lemma SameColumnsSameWindow(s: seq<MoveEvent>, t: seq<MoveEvent>)
    requires |s| == |t| && forall i :: 0 <= i < |s| ==> s[i].move == t[i].move
    requires ColumnOf(s, CubeClock) == ColumnOf(t, CubeClock) && ColumnOf(s, HostClock) == ColumnOf(t, HostClock)
    ensures s == t
  {
    forall i | 0 <= i < |s| ensures s[i] == t[i] {
      assert ColumnOf(s, CubeClock)[i] == ColumnOf(t, CubeClock)[i];
      assert ColumnOf(s, HostClock)[i] == ColumnOf(t, HostClock)[i];
    }
  }

  /** Filling one more entry at the front of an already back-filled suffix. */
  lemma BackFillStep(col: seq<Option<int>>, i: nat)
    requires 0 < i < |col|
    ensures BackFill(col[i - 1..])[0] ==
      if col[i - 1].Some? then col[i - 1]
      else if BackFill(col[i..])[0].Some? then Some(BackFill(col[i..])[0].value - Step) else None
    ensures BackFill(col[i - 1..])[1..] == BackFill(col[i..])
  {
    assert col[i - 1..][1..] == col[i..];
  }

  /** A window that differs from `t` only in column `c`, which now reads `col`. */
  ghost predicate OnlyColumnChanged(s: seq<MoveEvent>, t: seq<MoveEvent>, c: Column, col: seq<Option<int>>)
  {
    |s| == |t| == |col| &&
    forall j :: 0 <= j < |s| ==>
      s[j].move == t[j].move && Get(s[j], Other(c)) == Get(t[j], Other(c)) && Get(s[j], c) == col[j]
  }

  lemma ColumnsOfChanged(s: seq<MoveEvent>, t: seq<MoveEvent>, c: Column, col: seq<Option<int>>)
    requires OnlyColumnChanged(s, t, c, col)
    ensures ColumnOf(s, c) == col && ColumnOf(s, Other(c)) == ColumnOf(t, Other(c))
  {
  }

  /** The body of the tail-to-head loop at index i, on a window as a value. */
  function BackwardStep(s: seq<MoveEvent>, c: Column, i: nat): (r: seq<MoveEvent>)
    requires 0 < i < |s|
    ensures |r| == |s|
  {
    if Get(s[i], c).Some? && Get(s[i - 1], c).None? then s[i - 1 := Put(s[i - 1], c, Some(Get(s[i], c).value - Step))]
    else s
  }

  /** The body of the head-to-tail loop at index i, on a window as a value. */
  function ForwardStep(s: seq<MoveEvent>, c: Column, i: nat): (r: seq<MoveEvent>)
    requires 0 <= i < |s| - 1
    ensures |r| == |s|
  {
    if Get(s[i], c).Some? && Get(s[i + 1], c).None? then s[i + 1 := Put(s[i + 1], c, Some(Get(s[i], c).value + Step))]
    else s
  }

  /** One iteration of the tail-to-head loop extends the back-filled suffix by one entry. */
  lemma BackwardStepFills(s: seq<MoveEvent>, orig: seq<MoveEvent>, c: Column, i: nat)
    requires 0 < i < |orig|
    requires OnlyColumnChanged(s, orig, c, ColumnOf(orig, c)[..i] + BackFill(ColumnOf(orig, c)[i..]))
    ensures OnlyColumnChanged(BackwardStep(s, c, i), orig, c, ColumnOf(orig, c)[..i - 1] + BackFill(ColumnOf(orig, c)[i - 1..]))
  {
    var col := ColumnOf(orig, c);
    var before := col[..i] + BackFill(col[i..]);
    var after := col[..i - 1] + BackFill(col[i - 1..]);
    BackFillStep(col, i);
    assert before[i] == BackFill(col[i..])[0];
    forall j | 0 <= j < |orig| ensures after[j] == (if j == i - 1 then BackFill(col[i - 1..])[0] else before[j]) {
      if j >= i {
        assert after[j] == BackFill(col[i - 1..])[j - i + 1];
      }
    }
  }

  /** One iteration of the head-to-tail loop extends the forward-filled prefix by one entry. */
  lemma ForwardStepFills(s: seq<MoveEvent>, orig: seq<MoveEvent>, c: Column, i: nat)
    requires 0 <= i < |orig| - 1
    requires OnlyColumnChanged(s, orig, c, ForwardFill(ColumnOf(orig, c)[..i + 1]) + ColumnOf(orig, c)[i + 1..])
    ensures OnlyColumnChanged(ForwardStep(s, c, i), orig, c, ForwardFill(ColumnOf(orig, c)[..i + 2]) + ColumnOf(orig, c)[i + 2..])
  {
    var col := ColumnOf(orig, c);
    var before := ForwardFill(col[..i + 1]) + col[i + 1..];
    var after := ForwardFill(col[..i + 2]) + col[i + 2..];
    assert col[..i + 2][..i + 1] == col[..i + 1];
    assert ForwardFill(col[..i + 2])[..i + 1] == ForwardFill(col[..i + 1]);
    forall j | 0 <= j < |orig| ensures after[j] == (if j == i + 1 then ForwardFill(col[..i + 2])[i + 1] else before[j]) {
      if j <= i {
        assert after[j] == ForwardFill(col[..i + 2])[j];
      }
    }
  }

  /** Before the head-to-tail loop, the filled prefix is the first entry alone. */
  lemma ForwardFillStart(col: seq<Option<int>>)
    requires |col| > 0
    ensures ForwardFill(col[..1]) + col[1..] == col
  {
    assert col[..1][..0] == [];
    assert ForwardFill(col[..1]) == [col[0]];
  }

  /** After it, the filled prefix is the whole column. */
  lemma ForwardFillEnd(col: seq<Option<int>>)
    ensures ForwardFill(col[..|col|]) + col[|col|..] == ForwardFill(col)
  {
    assert col[..|col|] == col;
  }

  /** One tail-to-head loop over column `c` of the window. */
  method FillBackward(a: array<MoveEvent>, c: Column)
    modifies a
    ensures OnlyColumnChanged(a[..], old(a[..]), c, BackFill(ColumnOf(old(a[..]), c)))
  {
    ghost var orig := a[..];
    ghost var col := ColumnOf(orig, c);
    if a.Length == 0 {
      return;
    }
    var i := a.Length - 1;
    assert col[..i] + BackFill(col[i..]) == col;
    while i > 0
      invariant 0 <= i < a.Length
      invariant OnlyColumnChanged(a[..], orig, c, col[..i] + BackFill(col[i..]))
    {
      ghost var before := a[..];
      if Get(a[i], c).Some? && Get(a[i - 1], c).None? {
        a[i - 1] := Put(a[i - 1], c, Some(Get(a[i], c).value - Step));
      }
      assert a[..] == BackwardStep(before, c, i);
      BackwardStepFills(before, orig, c, i);
      i := i - 1;
    }
    assert col[..0] + BackFill(col[0..]) == BackFill(col);
  }

  /** One head-to-tail loop over column `c` of the window. */
  method FillForward(a: array<MoveEvent>, c: Column)
    modifies a
    ensures OnlyColumnChanged(a[..], old(a[..]), c, ForwardFill(ColumnOf(old(a[..]), c)))
  {
    ghost var orig := a[..];
    ghost var col := ColumnOf(orig, c);
    if a.Length == 0 {
      return;
    }
    ForwardFillStart(col);
    for i := 0 to a.Length - 1
      invariant OnlyColumnChanged(a[..], orig, c, ForwardFill(col[..i + 1]) + col[i + 1..])
    {
      ghost var before := a[..];
      if Get(a[i], c).Some? && Get(a[i + 1], c).None? {
        a[i + 1] := Put(a[i + 1], c, Some(Get(a[i], c).value + Step));
      }
      assert a[..] == ForwardStep(before, c, i);
      ForwardStepFills(before, orig, c, i);
    }
    ForwardFillEnd(col);
  }

  /** The columns of the filled window are the filled columns. */
  lemma FilledColumns(s: seq<MoveEvent>)
    ensures ColumnOf(Filled(s), CubeClock) == Fill(ColumnOf(s, CubeClock))
    ensures ColumnOf(Filled(s), HostClock) == Fill(ColumnOf(s, HostClock))
    ensures forall i :: 0 <= i < |s| ==> Filled(s)[i].move == s[i].move
  {
  }

  /** The four passes, each changing one column, leave the filled window. */
  lemma FourPasses(input: seq<MoveEvent>, s1: seq<MoveEvent>, s2: seq<MoveEvent>, s3: seq<MoveEvent>, s4: seq<MoveEvent>)
    requires |input| >= 2
    requires OnlyColumnChanged(s1, input, CubeClock, BackFill(ColumnOf(input, CubeClock)))
    requires OnlyColumnChanged(s2, s1, HostClock, BackFill(ColumnOf(s1, HostClock)))
    requires OnlyColumnChanged(s3, s2, CubeClock, ForwardFill(ColumnOf(s2, CubeClock)))
    requires OnlyColumnChanged(s4, s3, HostClock, ForwardFill(ColumnOf(s3, HostClock)))
    ensures s4 == Filled(input)
  {
    ColumnsOfChanged(s1, input, CubeClock, BackFill(ColumnOf(input, CubeClock)));
    ColumnsOfChanged(s2, s1, HostClock, BackFill(ColumnOf(s1, HostClock)));
    ColumnsOfChanged(s3, s2, CubeClock, ForwardFill(ColumnOf(s2, CubeClock)));
    ColumnsOfChanged(s4, s3, HostClock, ForwardFill(ColumnOf(s3, HostClock)));
    FilledColumns(input);
    SameColumnsSameWindow(s4, Filled(input));
  }

  /** The four fill loops of cubeTimestampLinearFit, run only on windows of two moves or
      more. */
  method FillGaps(cubeMoves: array<MoveEvent>)
    modifies cubeMoves
    ensures cubeMoves[..] == Filled(old(cubeMoves[..]))
  {
    ghost var input := cubeMoves[..];
    if cubeMoves.Length >= 2 {
      FillBackward(cubeMoves, CubeClock);
      ghost var s1 := cubeMoves[..];
      FillBackward(cubeMoves, HostClock);
      ghost var s2 := cubeMoves[..];
      FillForward(cubeMoves, CubeClock);
      ghost var s3 := cubeMoves[..];
      FillForward(cubeMoves, HostClock);
      FourPasses(input, s1, s2, s3, cubeMoves[..]);
    } else {
      FilledColumns(input);
      SameColumnsSameWindow(cubeMoves[..], Filled(input));
    }
  }

  /** The result loop: every entry's fitted cube time minus the first entry's. */
  method FitWindow(window: seq<MoveEvent>, fit: Regression) returns (res: seq<FittedMove>)
    ensures res == LinearFit(window, fit)
  {
    res := [];
    if |window| > 0 {
      var f := fit(ColumnOf(window, CubeClock), ColumnOf(window, HostClock));
      var first := Fitted(f, window[0].cubeTimestamp);
      for i := 0 to |window|
        invariant res == LinearFit(window, fit)[..i]
      {
        var m := window[i];
        res := res + [FittedMove(m.move, Rebased(f, m.cubeTimestamp, first), m.localTimestamp)];
      }
    }
  }

  /** `cubeTimestampLinearFit(cubeMoves)`. The window is filled in place, then the result is
      built from it; `fit` stands for the regression and the rounding. */
  method CubeTimestampLinearFit(cubeMoves: array<MoveEvent>, fit: Regression) returns (res: seq<FittedMove>)
    modifies cubeMoves
    ensures cubeMoves[..] == Filled(old(cubeMoves[..]))
    ensures res == LinearFit(Filled(old(cubeMoves[..])), fit)
  {
    FillGaps(cubeMoves);
    res := FitWindow(cubeMoves[..], fit);
  }

  /** A known value is never overwritten by the tail-to-head pass. */
  lemma {:induction false} BackFillKeepsKnown(col: seq<Option<int>>, i: nat)
    requires i < |col| && col[i].Some?
    ensures BackFill(col)[i] == col[i]
    decreases |col|
  {
    if i > 0 {
      BackFillKeepsKnown(col[1..], i - 1);
    }
  }

  /** A missing value before a known one at k, with only gaps in between, is the known value
      minus one step per move. */
  lemma {:induction false} BackFillNearest(col: seq<Option<int>>, i: nat, k: nat)
    requires i <= k < |col| && col[k].Some?
    requires forall j :: i <= j < k ==> col[j].None?
    ensures BackFill(col)[i] == Some(col[k].value - Step * (k - i))
    decreases |col|
  {
    if i > 0 {
      BackFillNearest(col[1..], i - 1, k - 1);
    } else if k > 0 {
      BackFillNearest(col[1..], 0, k - 1);
    }
  }

  /** Every entry at or before a known one is known after the tail-to-head pass. */
  lemma {:induction false} BackFillReaches(col: seq<Option<int>>, i: nat, k: nat)
    requires i <= k < |col| && col[k].Some?
    ensures BackFill(col)[i].Some?
    decreases |col|
  {
    if i > 0 {
      BackFillReaches(col[1..], i - 1, k - 1);
    } else if k > 0 {
      BackFillReaches(col[1..], 0, k - 1);
    }
  }

  /** Entries after the last known one stay missing through the tail-to-head pass. */
  lemma {:induction false} BackFillLeavesTail(col: seq<Option<int>>, i: nat)
    requires i < |col|
    requires forall j :: i <= j < |col| ==> col[j].None?
    ensures BackFill(col)[i].None?
    decreases |col|
  {
    if i > 0 {
      BackFillLeavesTail(col[1..], i - 1);
    } else if |col| > 1 {
      BackFillLeavesTail(col[1..], 0);
    }
  }

  /** A known value is never overwritten by the head-to-tail pass. */
  lemma {:induction false} ForwardFillKeepsKnown(col: seq<Option<int>>, i: nat)
    requires i < |col| && col[i].Some?
    ensures ForwardFill(col)[i] == col[i]
    decreases |col|
  {
    if i < |col| - 1 {
      ForwardFillKeepsKnown(col[..|col| - 1], i);
    }
  }

  /** A missing value after a known one at k, with only gaps in between, is the known value
      plus one step per move. */
  lemma {:induction false} ForwardFillNearest(col: seq<Option<int>>, k: nat, i: nat)
    requires k <= i < |col| && col[k].Some?
    requires forall j :: k < j <= i ==> col[j].None?
    ensures ForwardFill(col)[i] == Some(col[k].value + Step * (i - k))
    decreases |col|
  {
    var init := col[..|col| - 1];
    if i < |col| - 1 {
      ForwardFillNearest(init, k, i);
    } else if k < i {
      ForwardFillNearest(init, k, i - 1);
    }
  }

  /** Every entry at or after a known one is known after the head-to-tail pass. */
  lemma {:induction false} ForwardFillReaches(col: seq<Option<int>>, k: nat, i: nat)
    requires k <= i < |col| && col[k].Some?
    ensures ForwardFill(col)[i].Some?
    decreases |col|
  {
    var init := col[..|col| - 1];
    if i < |col| - 1 {
      ForwardFillReaches(init, k, i);
    } else if k < i {
      ForwardFillReaches(init, k, i - 1);
    }
  }

  /** Entries before the first known one stay missing through the head-to-tail pass. */
  lemma {:induction false} ForwardFillLeavesHead(col: seq<Option<int>>, i: nat)
    requires i < |col|
    requires forall j :: 0 <= j <= i ==> col[j].None?
    ensures ForwardFill(col)[i].None?
    decreases |col|
  {
    var init := col[..|col| - 1];
    if i < |col| - 1 {
      ForwardFillLeavesHead(init, i);
    } else if i > 0 {
      ForwardFillLeavesHead(init, i - 1);
    }
  }

  /** After both passes, an entry up to the next known value at k reads that value minus one
      step per move in between; with k = i, a known value is kept. Gaps between two known
      values are filled from the later one. */
  lemma FillBeforeKnown(col: seq<Option<int>>, i: nat, k: nat)
    requires |col| >= 2
    requires i <= k < |col| && col[k].Some?
    requires forall j :: i <= j < k ==> col[j].None?
    ensures Fill(col)[i] == Some(col[k].value - Step * (k - i))
  {
    BackFillNearest(col, i, k);
    ForwardFillKeepsKnown(BackFill(col), i);
  }

  /** After both passes, an entry after the last known value at k reads that value plus one
      step per move. */
  lemma FillAfterLastKnown(col: seq<Option<int>>, k: nat, i: nat)
    requires |col| >= 2
    requires k < i < |col| && col[k].Some?
    requires forall j :: k < j < |col| ==> col[j].None?
    ensures Fill(col)[i] == Some(col[k].value + Step * (i - k))
  {
    var b := BackFill(col);
    BackFillKeepsKnown(col, k);
    forall j | k < j <= i ensures b[j].None? {
      BackFillLeavesTail(col, j);
    }
    ForwardFillNearest(b, k, i);
  }

  /** A column of two or more entries with one known value comes out fully known. */
  lemma FillCompletes(col: seq<Option<int>>, k: nat)
    requires |col| >= 2 && k < |col| && col[k].Some?
    ensures forall i :: 0 <= i < |col| ==> Fill(col)[i].Some?
  {
    var b := BackFill(col);
    BackFillKeepsKnown(col, k);
    forall i | 0 <= i < |col| ensures Fill(col)[i].Some? {
      if i <= k {
        BackFillReaches(col, i, k);
        ForwardFillKeepsKnown(b, i);
      } else {
        ForwardFillReaches(b, k, i);
      }
    }
  }

  /** A column with no known value comes out unchanged. */
  lemma FillNothingKnown(col: seq<Option<int>>)
    requires forall j :: 0 <= j < |col| ==> col[j].None?
    ensures Fill(col) == col
  {
    if |col| >= 2 {
      var b := BackFill(col);
      forall j | 0 <= j < |col| ensures b[j].None? {
        BackFillLeavesTail(col, j);
      }
      forall j | 0 <= j < |col| ensures Fill(col)[j] == col[j] {
        ForwardFillLeavesHead(b, j);
      }
    }
  }

  /** The result keeps every move and host timestamp; the first entry is at 0 when its cube
      timestamp is known, and an entry's cube time is NaN exactly when its own or the first
      entry's cube timestamp is missing. */
  lemma LinearFitEntries(s: seq<MoveEvent>, fit: Regression)
    ensures |LinearFit(s, fit)| == |s|
    ensures forall i :: 0 <= i < |s| ==>
      LinearFit(s, fit)[i].move == s[i].move && LinearFit(s, fit)[i].localTimestamp == s[i].localTimestamp &&
      (LinearFit(s, fit)[i].cubeTimestamp.Some? <==> s[0].cubeTimestamp.Some? && s[i].cubeTimestamp.Some?)
    ensures |s| > 0 ==> LinearFit(s, fit)[0].cubeTimestamp == if s[0].cubeTimestamp.Some? then Some(0) else None
  {
  }

  /** Fitted differences are preserved: two entries' results differ by the difference of
      their fitted values. */
  lemma LinearFitKeepsDifferences(s: seq<MoveEvent>, fit: Regression, i: nat, j: nat)
    requires i < |s| && j < |s|
    requires s[0].cubeTimestamp.Some? && s[i].cubeTimestamp.Some? && s[j].cubeTimestamp.Some?
    ensures var f := fit(ColumnOf(s, CubeClock), ColumnOf(s, HostClock));
      LinearFit(s, fit)[i].cubeTimestamp.value - LinearFit(s, fit)[j].cubeTimestamp.value ==
        f(s[i].cubeTimestamp.value) - f(s[j].cubeTimestamp.value)
  {
  }

  /** A window of two or more moves with one known cube timestamp comes out with every cube
      time defined and the first at 0. */
  lemma FitWithKnownCubeTime(s: seq<MoveEvent>, fit: Regression, k: nat)
    requires |s| >= 2 && k < |s| && s[k].cubeTimestamp.Some?
    ensures forall i :: 0 <= i < |s| ==> LinearFit(Filled(s), fit)[i].cubeTimestamp.Some?
    ensures LinearFit(Filled(s), fit)[0].cubeTimestamp == Some(0)
  {
    FilledColumns(s);
    FillCompletes(ColumnOf(s, CubeClock), k);
    assert forall i :: 0 <= i < |s| ==> Filled(s)[i].cubeTimestamp == ColumnOf(Filled(s), CubeClock)[i];
    LinearFitEntries(Filled(s), fit);
  }

  /** A window with no known cube timestamp comes out with every cube time NaN. */
  lemma FitWithoutCubeTime(s: seq<MoveEvent>, fit: Regression)
    requires forall j :: 0 <= j < |s| ==> s[j].cubeTimestamp.None?
    ensures forall i :: 0 <= i < |s| ==> LinearFit(Filled(s), fit)[i].cubeTimestamp.None?
  {
    FilledColumns(s);
    FillNothingKnown(ColumnOf(s, CubeClock));
    assert forall i :: 0 <= i < |s| ==> Filled(s)[i].cubeTimestamp == ColumnOf(Filled(s), CubeClock)[i];
    LinearFitEntries(Filled(s), fit);
  }
}
