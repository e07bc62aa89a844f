/** `identifyMoves`: the breadth-first search for the turns that lead from one pattern to
    another, used when the reported moves do not explain the reported state. */
module MoveSearch {
  import opened Base
  import opened CubeMoves

  /** The depth bound identifyMoves is called with. */
  const DefaultDepth: nat := 4

  /** An entry of the search queue: a pattern and the turns that produced it. */
  type Node<P> = (P, seq<Move>)

  /** `path` turns `original` into `current` within the depth bound. */
  ghost predicate Solves<P>(pz: Puzzle<P>, original: P, current: P, depth: nat, path: seq<Move>)
  {
    |path| <= depth && ApplyAll(pz, original, path) == current
  }

  /** What identifyMoves returns: a shortest path of at most `depth` turns, or nothing when
      no path of at most `depth` turns exists. */
  ghost predicate IsSearchResult<P>(pz: Puzzle<P>, original: P, current: P, depth: nat, found: Option<seq<Move>>)
  {
    match found
    case Some(path) =>
      && Solves(pz, original, current, depth, path)
      && forall q :: |q| < |path| ==> ApplyAll(pz, original, q) != current
    case None =>
      forall q :: |q| <= depth ==> ApplyAll(pz, original, q) != current
  }

  /** Some path in the queue is a prefix of `path`. */
  ghost predicate Covered<P>(queue: seq<Node<P>>, path: seq<Move>)
  {
    exists i :: 0 <= i < |queue| && queue[i].1 <= path
  }

  /** The number of nodes of a full 12-ary tree of the given height: how many queue entries
      one entry can still give rise to. */
  ghost function NodeWeight(remaining: int): nat
    decreases remaining
  {
    if remaining <= 0 then 1 else 1 + 12 * NodeWeight(remaining - 1)
  }

  /** The work left in a queue: it drops by one with every entry the search takes out. */
  ghost function Weight<P>(queue: seq<Node<P>>, depth: nat): nat
  {
    if queue == [] then 0 else NodeWeight(depth - |queue[0].1|) + Weight(queue[1..], depth)
  }

  lemma {:induction false} WeightAppend<P>(a: seq<Node<P>>, b: seq<Node<P>>, depth: nat)
    ensures Weight(a + b, depth) == Weight(a, depth) + Weight(b, depth)
    decreases |a|
  {
    if a == [] {
      assert a + b == b;
    } else {
      assert (a + b)[1..] == a[1..] + b;
      WeightAppend(a[1..], b, depth);
    }
  }

  lemma {:induction false} WeightUniform<P>(s: seq<Node<P>>, depth: nat, len: nat)
    requires forall i :: 0 <= i < |s| ==> |s[i].1| == len
    ensures Weight(s, depth) == |s| * NodeWeight(depth - len)
    decreases |s|
  {
    if s != [] {
      WeightUniform(s[1..], depth, len);
    }
  }

  /** The successors identifyMoves queues for an entry, in the order of possibleMoves. */
  ghost function Children<P>(pz: Puzzle<P>, node: Node<P>): (c: seq<Node<P>>)
    ensures |c| == |PossibleMoves|
    ensures forall j :: 0 <= j < |c| ==>
      c[j] == (pz.applyMove(node.0, PossibleMoves[j]), node.1 + [PossibleMoves[j]])
  {
    seq(|PossibleMoves|, j requires 0 <= j < |PossibleMoves| =>
      (pz.applyMove(node.0, PossibleMoves[j]), node.1 + [PossibleMoves[j]]))
  }

  /** The search invariant: every entry's pattern is its path applied to `original`, paths
      are at most `depth` long and sorted by length, spanning at most two lengths, and every
      solution of at most `depth` turns extends some queued path. */
  ghost predicate QueueInvariant<P>(pz: Puzzle<P>, original: P, current: P, depth: nat, queue: seq<Node<P>>)
  {
    && (forall i :: 0 <= i < |queue| ==>
          |queue[i].1| <= depth && queue[i].0 == ApplyAll(pz, original, queue[i].1))
    && (forall i, j :: 0 <= i <= j < |queue| ==> |queue[i].1| <= |queue[j].1|)
    && (forall i :: 0 <= i < |queue| ==> |queue[i].1| <= |queue[0].1| + 1)
    && (forall q :: Solves(pz, original, current, depth, q) ==> Covered(queue, q))
  }

  lemma InitialQueue<P>(pz: Puzzle<P>, original: P, current: P, depth: nat)
    ensures QueueInvariant(pz, original, current, depth, [(original, [])])
  {
    var queue: seq<Node<P>> := [(original, [])];
    forall q | Solves(pz, original, current, depth, q) ensures Covered(queue, q) {
      assert queue[0].1 <= q;
    }
  }

  /** When the first entry reaches `current`, its path is a shortest one. */
  lemma FrontIsShortest<P>(pz: Puzzle<P>, original: P, current: P, depth: nat, queue: seq<Node<P>>)
    requires QueueInvariant(pz, original, current, depth, queue)
    requires |queue| > 0 && queue[0].0 == current
    ensures forall q :: |q| < |queue[0].1| ==> ApplyAll(pz, original, q) != current
  {
    forall q | |q| < |queue[0].1| ensures ApplyAll(pz, original, q) != current {
      assert !Covered(queue, q);
    }
  }

  /** An entry of full depth that does not reach `current` is dropped. */
  lemma DropFront<P>(pz: Puzzle<P>, original: P, current: P, depth: nat, queue: seq<Node<P>>)
    requires QueueInvariant(pz, original, current, depth, queue)
    requires |queue| > 0 && queue[0].0 != current && |queue[0].1| == depth
    ensures QueueInvariant(pz, original, current, depth, queue[1..])
    ensures Weight(queue[1..], depth) < Weight(queue, depth)
  {
    var moves := queue[0].1;
    forall q | Solves(pz, original, current, depth, q) ensures Covered(queue[1..], q) {
      assert !(moves <= q) by {
        assert moves <= q && |q| <= |moves| ==> q == moves;
      }
      var i :| 0 <= i < |queue| && queue[i].1 <= q;
      assert queue[1..][i - 1] == queue[i];
    }
  }

  /** With no entries left, the coverage invariant says no solution exists. */
  lemma EmptyQueue<P>(pz: Puzzle<P>, original: P, current: P, depth: nat)
    requires QueueInvariant(pz, original, current, depth, [])
    ensures forall q :: |q| <= depth ==> ApplyAll(pz, original, q) != current
  {
    forall q | |q| <= depth ensures ApplyAll(pz, original, q) != current {
      assert Solves(pz, original, current, depth, q) ==> Covered<P>([], q);
      assert !Covered<P>([], q);
    }
  }

  /** The successors of a consistent entry are consistent and one turn longer. */
  lemma ChildrenConsistent<P>(pz: Puzzle<P>, original: P, node: Node<P>)
    requires node.0 == ApplyAll(pz, original, node.1)
    ensures forall j :: 0 <= j < |Children(pz, node)| ==>
      Children(pz, node)[j].0 == ApplyAll(pz, original, Children(pz, node)[j].1)
      && |Children(pz, node)[j].1| == |node.1| + 1
  {
    var children := Children(pz, node);
    forall j | 0 <= j < |children|
      ensures children[j].0 == ApplyAll(pz, original, children[j].1)
    {
      ApplyAllSnoc(pz, original, node.1, PossibleMoves[j]);
    }
  }

  /** Expanding the first entry keeps entries consistent, bounded and sorted by length. */
  lemma ExpandShape<P>(pz: Puzzle<P>, original: P, current: P, depth: nat, queue: seq<Node<P>>)
    requires QueueInvariant(pz, original, current, depth, queue)
    requires |queue| > 0 && |queue[0].1| < depth
    ensures var next := queue[1..] + Children(pz, queue[0]);
      && (forall i :: 0 <= i < |next| ==>
            |next[i].1| <= depth && next[i].0 == ApplyAll(pz, original, next[i].1))
      && (forall i, j :: 0 <= i <= j < |next| ==> |next[i].1| <= |next[j].1|)
      && (forall i :: 0 <= i < |next| ==> |next[i].1| <= |next[0].1| + 1)
  {
    var moves := queue[0].1;
    var rest, children := queue[1..], Children(pz, queue[0]);
    var next := rest + children;
    ChildrenConsistent(pz, original, queue[0]);
    forall i | 0 <= i < |next|
      ensures |next[i].1| <= depth && next[i].0 == ApplyAll(pz, original, next[i].1)
      ensures |moves| <= |next[i].1| <= |moves| + 1
    {
      if i < |rest| { assert next[i] == queue[i + 1]; } else { assert next[i] == children[i - |rest|]; }
    }
    forall i, j | 0 <= i <= j < |next| ensures |next[i].1| <= |next[j].1| {
      if j < |rest| {
        assert next[i] == queue[i + 1] && next[j] == queue[j + 1];
      } else if i >= |rest| {
        assert next[i] == children[i - |rest|] && next[j] == children[j - |rest|];
      } else {
        assert next[j] == children[j - |rest|];
      }
    }
  }

  /** Expanding an entry that does not reach `current` keeps every solution covered. */
  lemma ExpandCovers<P>(pz: Puzzle<P>, original: P, current: P, depth: nat, queue: seq<Node<P>>)
    requires QueueInvariant(pz, original, current, depth, queue)
    requires |queue| > 0 && queue[0].0 != current
    ensures forall q :: Solves(pz, original, current, depth, q) ==>
      Covered(queue[1..] + Children(pz, queue[0]), q)
  {
    var moves := queue[0].1;
    var rest, children := queue[1..], Children(pz, queue[0]);
    var next := rest + children;
    forall q | Solves(pz, original, current, depth, q) ensures Covered(next, q) {
      var i :| 0 <= i < |queue| && queue[i].1 <= q;
      if i > 0 {
        assert next[i - 1] == queue[i];
      } else {
        assert q != moves;
        var m := q[|moves|];
        assert next[|rest| + MoveIndex(m)] == children[MoveIndex(m)];
        assert moves + [m] <= q;
      }
    }
  }

  /** An entry shorter than `depth` that does not reach `current` is replaced by its twelve
      successors at the back of the queue. */
  lemma ExpandFront<P>(pz: Puzzle<P>, original: P, current: P, depth: nat, queue: seq<Node<P>>)
    requires QueueInvariant(pz, original, current, depth, queue)
    requires |queue| > 0 && queue[0].0 != current && |queue[0].1| < depth
    ensures QueueInvariant(pz, original, current, depth, queue[1..] + Children(pz, queue[0]))
    ensures Weight(queue[1..] + Children(pz, queue[0]), depth) < Weight(queue, depth)
  {
    ExpandShape(pz, original, current, depth, queue);
    ExpandCovers(pz, original, current, depth, queue);
    var children := Children(pz, queue[0]);
    WeightAppend(queue[1..], children, depth);
    WeightUniform(children, depth, |queue[0].1| + 1);
  }

  /** `identifyMoves(original, current, depth)`. The queue holds every path of turns in
      breadth-first order, without removing repeated patterns. */
  method IdentifyMoves<P(==)>(pz: Puzzle<P>, original: P, current: P, depth: nat)
    returns (found: Option<seq<Move>>)
    ensures found.Some? ==> |found.value| <= depth && ApplyAll(pz, original, found.value) == current
    ensures found.Some? ==> forall q :: |q| < |found.value| ==> ApplyAll(pz, original, q) != current
    ensures found.None? ==> forall q :: |q| <= depth ==> ApplyAll(pz, original, q) != current
    ensures found == Some([]) <==> original == current
  {
    var queue: seq<Node<P>> := [(original, [])];
    InitialQueue(pz, original, current, depth);
    while |queue| > 0
      invariant QueueInvariant(pz, original, current, depth, queue)
      decreases Weight(queue, depth)
    {
      ghost var before := queue;
      var (pattern, moves) := queue[0];
      queue := queue[1..];

      if pattern == current {
        FrontIsShortest(pz, original, current, depth, before);
        return Some(moves);
      }

      if |moves| < depth {
        ghost var rest := queue;
        for k := 0 to |PossibleMoves|
          invariant queue == rest + Children(pz, before[0])[..k]
        {
          var move := PossibleMoves[k];
          var transformed := pz.applyMove(pattern, move);
          queue := queue + [(transformed, moves + [move])];
          assert Children(pz, before[0])[..k + 1] == Children(pz, before[0])[..k] + [(transformed, moves + [move])];
        }
        assert Children(pz, before[0])[..|PossibleMoves|] == Children(pz, before[0]);
        ExpandFront(pz, original, current, depth, before);
      } else {
        DropFront(pz, original, current, depth, before);
      }
    }
    EmptyQueue(pz, original, current, depth);
    return None;
  }
}
