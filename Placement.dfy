/**
 * Placing the mushroom by rejection sampling. The random source is a
 * sequence of candidate cells supplied by the caller, one candidate per pair
 * of `randint(0, 4)` calls; candidates are tried in order until one is
 * neither the head nor any tail cell.
 */
module Placement {

  import opened Wrappers
  import opened Grid
  import opened Snake

  /** `c` is a cell the snake does not occupy (a missing head occupies nothing). */
  predicate Free(c: Cell, head: Option<Cell>, tail: seq<Cell>) {
    (head.None? || c != head.value) && c !in tail
  }

  /** Every candidate is a cell of the grid, as `randint(0, 4)` guarantees. */
  predicate DrawsInGrid(draws: seq<Cell>) {
    forall k :: 0 <= k < |draws| ==> InGrid(draws[k])
  }

  /** Some candidate is free, so rejection sampling stops within `draws`. */
  ghost predicate HasFreeDraw(draws: seq<Cell>, head: Option<Cell>, tail: seq<Cell>) {
    exists k :: 0 <= k < |draws| && Free(draws[k], head, tail)
  }

  /** The candidate rejection sampling accepts: the first free one. */
  ghost function FirstFreeDraw(draws: seq<Cell>, head: Option<Cell>, tail: seq<Cell>): (c: Cell)
    requires HasFreeDraw(draws, head, tail)
    ensures Free(c, head, tail)
    ensures c in draws
    decreases |draws|
  {
    if Free(draws[0], head, tail) then draws[0]
    else
      var k :| 0 <= k < |draws| && Free(draws[k], head, tail);
      assert draws[1..][k - 1] == draws[k];
      FirstFreeDraw(draws[1..], head, tail)
  }

  /** When the first `n` candidates are taken and candidate `n` is free, it is the one accepted. */
  lemma {:induction false} FirstFreeDrawAt(draws: seq<Cell>, head: Option<Cell>, tail: seq<Cell>, n: nat)
    requires n < |draws| && Free(draws[n], head, tail)
    requires forall j :: 0 <= j < n ==> !Free(draws[j], head, tail)
    ensures HasFreeDraw(draws, head, tail)
    ensures FirstFreeDraw(draws, head, tail) == draws[n]
  {
    if n > 0 {
      assert !Free(draws[0], head, tail);
      assert draws[1..][n - 1] == draws[n];
      forall j | 0 <= j < n - 1
        ensures !Free(draws[1..][j], head, tail)
      {
        assert draws[1..][j] == draws[j + 1];
      }
      FirstFreeDrawAt(draws[1..], head, tail, n - 1);
    }
  }

  /** The accepted candidate lies on the grid when every candidate does. */
  lemma FirstFreeDrawInGrid(draws: seq<Cell>, head: Option<Cell>, tail: seq<Cell>)
    requires DrawsInGrid(draws) && HasFreeDraw(draws, head, tail)
    ensures InGrid(FirstFreeDraw(draws, head, tail))
  {
  }

  /**
   * The selection loop of `setMushroom`: draw a candidate, mark it valid,
   * reject it if it is the head or any tail cell, and draw again until one is
   * accepted. `rejected` counts the candidates turned down.
   */
  method PickFreeCell(head: Option<Cell>, tail: seq<Cell>, draws: seq<Cell>) returns (c: Cell, rejected: nat)
    requires HasFreeDraw(draws, head, tail)
    ensures rejected < |draws| && c == draws[rejected]
    ensures Free(c, head, tail)
    ensures forall j :: 0 <= j < rejected ==> !Free(draws[j], head, tail)
    ensures c == FirstFreeDraw(draws, head, tail)
  {
    ghost var bound :| 0 <= bound < |draws| && Free(draws[bound], head, tail);
    var i := 0;
    var valid := false;
    c := Cell(0, 0);
    while !valid
      invariant 0 <= i <= bound + 1
      invariant valid ==> 0 < i && c == draws[i - 1] && Free(c, head, tail)
      invariant forall j :: 0 <= j < (if valid then i - 1 else i) ==> !Free(draws[j], head, tail)
      decreases bound + 1 - i
    {
      c := draws[i];
      i := i + 1;
      valid := true;
      if head.Some? && head.value == c {
        valid := false;
      }
      for k := 0 to |tail|
        invariant valid == ((head.None? || head.value != c) && forall j :: 0 <= j < k ==> tail[j] != c)
      {
        if tail[k] == c {
          valid := false;
        }
      }
    }
    rejected := i - 1;
    FirstFreeDrawAt(draws, head, tail, rejected);
  }

  /** Cell number `k` of the grid in row-major order. */
  function CellAt(k: nat): Cell {
    Cell(k % GRID_SIZE, k / GRID_SIZE)
  }

  /** The first `n` cells of the grid in row-major order. */
  ghost function FirstCells(n: nat): set<Cell> {
    if n == 0 then {} else FirstCells(n - 1) + {CellAt(n - 1)}
  }

  lemma {:induction false} FirstCellsCard(n: nat)
    ensures |FirstCells(n)| == n
    ensures forall c :: c in FirstCells(n) ==> 0 <= c.x < GRID_SIZE && 0 <= c.y && c.x + GRID_SIZE * c.y < n
  {
    if n > 0 {
      FirstCellsCard(n - 1);
      var c := CellAt(n - 1);
      assert c.x + GRID_SIZE * c.y == n - 1;
      assert c !in FirstCells(n - 1);
    }
  }

  /** The distinct cells of a sequence. */
  ghost function Elements(s: seq<Cell>): set<Cell> {
    if s == [] then {} else {s[0]} + Elements(s[1..])
  }

  lemma {:induction false} ElementsCard(s: seq<Cell>)
    ensures |Elements(s)| <= |s|
    ensures forall c :: c in s <==> c in Elements(s)
  {
    if s != [] {
      ElementsCard(s[1..]);
      assert s == [s[0]] + s[1..];
    }
  }

  lemma SubsetCard(a: set<Cell>, b: set<Cell>)
    requires a <= b
    ensures |a| <= |b|
  {
    assert b == a + (b - a);
    assert a * (b - a) == {};
  }

  /**
   * Pigeonhole: a snake of at most 24 segments, head included, leaves a free
   * cell on the 25-cell grid, so the selection loop has something to find.
   */
  lemma FreeCellExists(head: Option<Cell>, tail: seq<Cell>)
    requires |tail| < GRID_SIZE * GRID_SIZE - 1
    ensures exists c :: InGrid(c) && Free(c, head, tail)
  {
    FirstCellsCard(GRID_SIZE * GRID_SIZE);
    ElementsCard(tail);
    var occupied := Elements(tail) + (if head.Some? then {head.value} else {});
    assert |occupied| <= |tail| + 1;
    if forall c :: InGrid(c) ==> !Free(c, head, tail) {
      forall c | c in FirstCells(GRID_SIZE * GRID_SIZE)
        ensures c in occupied
      {
        assert InGrid(c);
      }
      SubsetCard(FirstCells(GRID_SIZE * GRID_SIZE), occupied);
      assert false;
    }
  }
}
