/**
 * The snake as a head cell and a tail of cells, nearest the head first.
 * Moving shifts every tail segment into the place of the one ahead of it;
 * growing stacks a new segment on the last one.
 */
module Snake {

  import opened Wrappers
  import opened Heading
  import opened Grid

  /** All occupied cells, head first. */
  function Body(head: Cell, tail: seq<Cell>): seq<Cell> {
    [head] + tail
  }

  /** The tail after the head leaves `oldHead`: each segment takes its predecessor's place. */
  function Shifted(tail: seq<Cell>, oldHead: Cell): (r: seq<Cell>)
    ensures |r| == |tail|
    ensures |tail| > 0 ==> r[0] == oldHead
    ensures forall i :: 1 <= i < |tail| ==> r[i] == tail[i - 1]
  {
    if tail == [] then [] else [oldHead] + tail[..|tail| - 1]
  }

  /** The cell a new segment is stacked on: the last tail segment, or the head. */
  function GrowthCell(head: Option<Cell>, tail: seq<Cell>): (c: Cell)
    requires head.Some? || tail != []
    ensures head.Some? ==> c in Body(head.value, tail)
    ensures tail != [] ==> c in tail
  {
    if tail == [] then head.value else tail[|tail| - 1]
  }

  /** The tail with one more segment, stacked on its last cell. */
  function Grown(head: Option<Cell>, tail: seq<Cell>): (r: seq<Cell>)
    requires head.Some? || tail != []
    ensures |r| == |tail| + 1
    ensures r[..|tail|] == tail
    ensures head.Some? ==> r[|tail|] in Body(head.value, tail)
    ensures tail != [] ==> r[|tail|] == r[|tail| - 1]
    ensures tail == [] ==> r[0] == head.value
  {
    tail + [GrowthCell(head, tail)]
  }

  /** The head `at` runs into its own tail. */
  predicate Collides(at: Cell, tail: seq<Cell>) {
    exists i :: 0 <= i < |tail| && tail[i] == at
  }

  /** One cell of motion: the new body is the new head followed by the old body minus its last cell. */
  lemma BodyAfterShift(head: Cell, tail: seq<Cell>, next: Cell)
    ensures Body(next, Shifted(tail, head)) == [next] + Body(head, tail)[..|tail|]
  {
    var l := Body(next, Shifted(tail, head));
    var r := [next] + Body(head, tail)[..|tail|];
    assert |l| == |r|;
    forall i | 0 <= i < |l|
      ensures l[i] == r[i]
    {
      if i == 1 {
        assert l[1] == head;
      } else if i > 1 {
        assert l[i] == tail[i - 2];
      }
    }
  }

  /** Every cell of the shifted tail was occupied before the move. */
  lemma ShiftedWithinBody(head: Cell, tail: seq<Cell>)
    ensures forall i :: 0 <= i < |tail| ==> Shifted(tail, head)[i] in Body(head, tail)
  {
    forall i | 0 <= i < |tail|
      ensures Shifted(tail, head)[i] in Body(head, tail)
    {
      if i > 0 {
        assert Body(head, tail)[i] == tail[i - 1];
      } else {
        assert Body(head, tail)[0] == head;
      }
    }
  }

  /**
   * A move crashes exactly when the new head lands on the old head or on a
   * tail segment other than the last one, whose cell is vacated.
   */
  lemma CrashIffOntoPriorBody(head: Cell, tail: seq<Cell>, next: Cell)
    ensures Collides(next, Shifted(tail, head))
        <==> exists i :: 0 <= i < |tail| && Body(head, tail)[i] == next
  {
    var s := Shifted(tail, head);
    if Collides(next, s) {
      var i :| 0 <= i < |s| && s[i] == next;
      if i > 0 {
        assert Body(head, tail)[i] == tail[i - 1];
      }
      assert Body(head, tail)[i] == next;
    }
    if exists i :: 0 <= i < |tail| && Body(head, tail)[i] == next {
      var i :| 0 <= i < |tail| && Body(head, tail)[i] == next;
      if i > 0 {
        assert Body(head, tail)[i] == tail[i - 1];
      }
      assert s[i] == next;
    }
  }

  /** Moving into a cell the snake does not occupy never crashes. */
  lemma NoCrashIntoOpenCell(head: Cell, tail: seq<Cell>, next: Cell)
    requires next !in Body(head, tail)
    ensures !Collides(next, Shifted(tail, head))
  {
    ShiftedWithinBody(head, tail);
  }

  /** Turning back onto the neck of a snake with at least two tail segments crashes. */
  lemma ReversalIntoNeckCrashes(head: Cell, tail: seq<Cell>, dir: int)
    requires |tail| >= 2
    requires tail[0] == NextPosition(head, dir)
    ensures Collides(NextPosition(head, dir), Shifted(tail, head))
  {
    assert Shifted(tail, head)[1] == tail[0];
  }

  /**
   * With a single tail segment, turning back onto it swaps head and neck
   * and does not crash.
   */
  lemma SingleSegmentReversalSurvives(head: Cell, tail: seq<Cell>, dir: int)
    requires InGrid(head) && IsHeading(dir)
    requires |tail| == 1
    requires tail[0] == NextPosition(head, dir)
    ensures !Collides(NextPosition(head, dir), Shifted(tail, head))
    ensures Shifted(tail, head) == [head]
  {
    ExactlyOneAxisMoves(head, dir);
  }

  /** Growing adds a segment on an occupied cell: the set of occupied cells is unchanged. */
  lemma GrowKeepsOccupiedCells(head: Cell, tail: seq<Cell>)
    ensures forall c :: c in Body(head, Grown(Some(head), tail)) <==> c in Body(head, tail)
  {
    var g := Grown(Some(head), tail);
    assert Body(head, g) == Body(head, tail) + [g[|tail|]];
  }

  /**
   * The segment added by growing separates on the next move: after growing
   * and moving on, the tail is the whole body from before the move.
   */
  lemma GrowThenShift(head: Cell, tail: seq<Cell>)
    ensures Shifted(Grown(Some(head), tail), head) == Body(head, tail)
  {
    var g := Grown(Some(head), tail);
    assert g[..|g| - 1] == tail;
  }
}
