/** Quarter turns of the cube: the device's move codes, the labels the client emits, and
    the permutation-group library the client calls, reduced to what it uses. */
module CubeMoves {
  import opened Base

  /** The twelve quarter turns; a primed name is the counter-clockwise turn. */
  datatype Move = U | U' | R | R' | F | F' | L | L' | B | B' | D | D'

  /** `possibleMoves`: the order in which the move search tries successors. */
  const PossibleMoves: seq<Move> := [U, U', R, R', F, F', L, L', B, B', D, D']

  /** The code the cube sends for a move (the inverse of the MOVES table). */
  function CodeOf(m: Move): (code: int)
    ensures 1 <= code <= 12
  {
    match m
    case L' => 0x1
    case L => 0x2
    case R' => 0x3
    case R => 0x4
    case D' => 0x5
    case D => 0x6
    case U' => 0x7
    case U => 0x8
    case F' => 0x9
    case F => 0xa
    case B' => 0xb
    case B => 0xc
  }

  /** `MOVES[code]`: the label of a move code; undefined for every other code. */
  function MoveOf(code: int): (m: Option<Move>)
    ensures m.Some? <==> 1 <= code <= 12
    ensures m.Some? ==> CodeOf(m.value) == code
  {
    if code == 0x1 then Some(L')
    else if code == 0x2 then Some(L)
    else if code == 0x3 then Some(R')
    else if code == 0x4 then Some(R)
    else if code == 0x5 then Some(D')
    else if code == 0x6 then Some(D)
    else if code == 0x7 then Some(U')
    else if code == 0x8 then Some(U)
    else if code == 0x9 then Some(F')
    else if code == 0xa then Some(F)
    else if code == 0xb then Some(B')
    else if code == 0xc then Some(B)
    else None
  }

  /** MOVES maps the codes 1 to 12 one-to-one onto the twelve moves, which are exactly the
      entries of possibleMoves. */
  lemma MovesTableIsBijective()
    ensures forall m: Move :: MoveOf(CodeOf(m)) == Some(m)
    ensures forall c1, c2 :: MoveOf(c1).Some? && MoveOf(c1) == MoveOf(c2) ==> c1 == c2
    ensures forall m: Move :: m in PossibleMoves
    ensures forall i, j :: 0 <= i < j < |PossibleMoves| ==> PossibleMoves[i] != PossibleMoves[j]
  {
    forall m: Move ensures m in PossibleMoves {
      assert PossibleMoves[MoveIndex(m)] == m;
    }
  }

  /** The position of a move in possibleMoves. */
  function MoveIndex(m: Move): (k: nat)
    ensures k < |PossibleMoves| && PossibleMoves[k] == m
  {
    match m
    case U => 0
    case U' => 1
    case R => 2
    case R' => 3
    case F => 4
    case F' => 5
    case L => 6
    case L' => 7
    case B => 8
    case B' => 9
    case D => 10
    case D' => 11
  }

  /** `CubeMoveEvent`: the label is absent when the cube sent a code MOVES does not map. */
  datatype MoveEvent = MoveEvent(move: Option<Move>, cubeTimestamp: Option<int>, localTimestamp: Option<int>)

  /** The permutation-group library: apply one quarter turn, the solved pattern, and the
      decoding of the 27 state bytes. Identity of patterns is equality of P. */
  datatype Puzzle<!P> = Puzzle(applyMove: (P, Move) -> P, defaultPattern: P, stateToPattern: seq<byte> -> P)

  /** The pattern reached by turning `path` in order, starting from `s`. */
  function ApplyAll<P>(pz: Puzzle<P>, s: P, path: seq<Move>): P
    decreases |path|
  {
    if path == [] then s else ApplyAll(pz, pz.applyMove(s, path[0]), path[1..])
  }

  /** Turning p then q is turning p + q. */
  lemma {:induction false} ApplyAllAppend<P>(pz: Puzzle<P>, s: P, p: seq<Move>, q: seq<Move>)
    ensures ApplyAll(pz, s, p + q) == ApplyAll(pz, ApplyAll(pz, s, p), q)
    decreases |p|
  {
    if p != [] {
      assert (p + q)[1..] == p[1..] + q;
      ApplyAllAppend(pz, pz.applyMove(s, p[0]), p[1..], q);
    } else {
      assert p + q == q;
    }
  }

  /** One more turn at the end of a path. */
  lemma ApplyAllSnoc<P>(pz: Puzzle<P>, s: P, p: seq<Move>, m: Move)
    ensures ApplyAll(pz, s, p + [m]) == pz.applyMove(ApplyAll(pz, s, p), m)
  {
    ApplyAllAppend(pz, s, p, [m]);
  }

  /** The labels of a list of events' moves, with the absent ones dropped: what
      `moves.map(m => m.move).join(' ')` hands to applyAlg, since an undefined label becomes
      an empty word. */
  function Labels(moves: seq<Option<Move>>): (path: seq<Move>)
    ensures |path| <= |moves|
    ensures (forall i :: 0 <= i < |moves| ==> moves[i].Some?) ==>
      |path| == |moves| && forall i :: 0 <= i < |moves| ==> Some(path[i]) == moves[i]
    ensures forall m :: m in path <==> Some(m) in moves
  {
    if moves == [] then []
    else (if moves[0].Some? then [moves[0].value] else []) + Labels(moves[1..])
  }

  /** One label: kept when defined, dropped when not. With LabelsAppend this makes Labels
      the order-preserving filter of the defined labels. */
  lemma LabelsOfOne(m: Option<Move>)
    ensures Labels([m]) == if m.Some? then [m.value] else []
  {
    assert [m][1..] == [];
  }

  lemma {:induction false} LabelsAppend(a: seq<Option<Move>>, b: seq<Option<Move>>)
    ensures Labels(a + b) == Labels(a) + Labels(b)
    decreases |a|
  {
    if a != [] {
      assert (a + b)[1..] == a[1..] + b;
      LabelsAppend(a[1..], b);
    } else {
      assert a + b == b;
    }
  }

  /** `pattern.applyAlg(labels.join(' '))`. */
  function ApplyAlg<P>(pz: Puzzle<P>, s: P, moves: seq<Option<Move>>): P
  {
    ApplyAll(pz, s, Labels(moves))
  }

  /** Lifting a found path to optional labels and back loses nothing. */
  function Lift(path: seq<Move>): (moves: seq<Option<Move>>)
    ensures |moves| == |path| && forall i :: 0 <= i < |path| ==> moves[i] == Some(path[i])
    ensures Labels(moves) == path
  {
    seq(|path|, i requires 0 <= i < |path| => Some(path[i]))
  }
}
