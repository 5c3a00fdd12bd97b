/** The spiral matrix of massives.c: numbers 1..N*N written from the outer ring inwards. */
module Spiral {

  ghost predicate InGrid(n: nat, i: int, j: int) {
    0 <= i < n && 0 <= j < n
  }

  function Min(a: int, b: int): int {
    if a <= b then a else b
  }

  /** The ring of a cell: its distance from the nearest edge. */
  function Ring(n: nat, i: int, j: int): int {
    Min(Min(i, j), Min(n - 1 - i, n - 1 - j))
  }

  /** How many numbers lie in the rings outside ring k. */
  function Outer(n: nat, k: int): int {
    n * n - (n - 2 * k) * (n - 2 * k)
  }

  /** How many cells the border of an m by m square has. */
  function Border(m: int): int {
    if m == 1 then 1 else 4 * (m - 1)
  }

  /** The number the spiral gives to cell (i, j): the closed form by ring. */
  function Cell(n: nat, i: int, j: int): int {
    var k := Ring(n, i, j);
    var m := n - 2 * k;
    var last := n - 1 - k;
    Outer(n, k) + 1 +
    if i == k then j - k
    else if j == last then m - 1 + (i - k)
    else if i == last then 2 * (m - 1) + (last - j)
    else 3 * (m - 1) + (last - i)
  }

  /** The ring that holds number v, searched from ring k inwards. */
  function RingOf(n: nat, v: int, k: nat): (r: nat)
    requires 2 * k < n && Outer(n, k) < v <= n * n
    ensures k <= r && 2 * r < n
    ensures Outer(n, r) < v <= Outer(n, r) + Border(n - 2 * r)
    decreases n - 2 * k
  {
    OuterStep(n, k);
    if v <= Outer(n, k) + Border(n - 2 * k) then k else RingOf(n, v, k + 1)
  }

  /** The cell d steps along ring k. */
  function Place(n: nat, k: int, d: int): (int, int) {
    var m := n - 2 * k;
    var last := n - 1 - k;
    if d < m then (k, k + d)
    else if d < 2 * m - 1 then (k + d - (m - 1), last)
    else if d < 3 * m - 2 then (last, last - (d - 2 * (m - 1)))
    else (last - (d - 3 * (m - 1)), k)
  }

  /** The cell that holds number v: the inverse of Cell. */
  function Locate(n: nat, v: int): (int, int)
    requires 1 <= v <= n * n
  {
    var k := RingOf(n, v, 0);
    Place(n, k, v - 1 - Outer(n, k))
  }

  lemma OuterStep(n: nat, k: int)
    ensures Outer(n, k + 1) == Outer(n, k) + 4 * (n - 2 * k - 1)
    ensures n - 2 * k == 1 ==> Outer(n, k) + 1 == n * n
    ensures n - 2 * k == 2 ==> Outer(n, k) + 4 == n * n
  {
    var m := n - 2 * k;
    assert (m - 2) * (m - 2) == m * m - 4 * m + 4;
  }

  /** A ring ends where the next begins, so every outer ring is below every inner one. */
  lemma {:induction false} OuterMonotone(n: nat, k: nat, r: nat)
    requires k < r && 2 * r < n
    ensures Outer(n, k) + Border(n - 2 * k) <= Outer(n, r)
    decreases r
  {
    OuterStep(n, r - 1);
    if k < r - 1 {
      OuterMonotone(n, k, r - 1);
    }
  }

  lemma RingBounds(n: nat, i: int, j: int)
    requires InGrid(n, i, j)
    ensures var k := Ring(n, i, j);
      0 <= k && 2 * k < n && Outer(n, k) < Cell(n, i, j) <= Outer(n, k) + Border(n - 2 * k)
  {
  }

  lemma BorderFits(n: nat, k: nat)
    requires 2 * k < n
    ensures Outer(n, k) + Border(n - 2 * k) <= n * n
  {
    var m := n - 2 * k;
    assert (m - 2) * (m - 2) >= 0;
    assert (m - 2) * (m - 2) == m * m - 4 * m + 4;
  }

  lemma OuterZero(n: nat)
    ensures Outer(n, 0) == 0
  {
  }

  /** The spiral numbers stay within 1..n*n. */
  lemma CellInRange(n: nat, i: int, j: int)
    requires InGrid(n, i, j)
    ensures 1 <= Cell(n, i, j) <= n * n
  {
    hide Cell, Ring, Outer;
    RingBounds(n, i, j);
    var k := Ring(n, i, j);
    BorderFits(n, k);
    OuterZero(n);
    if k > 0 {
      OuterMonotone(n, 0, k);
    }
  }

  /** A number is in one ring only. */
  lemma RingOfIs(n: nat, v: int, k: nat)
    requires 1 <= v <= n * n && 2 * k < n && Outer(n, k) < v <= Outer(n, k) + Border(n - 2 * k)
    ensures RingOf(n, v, 0) == k
  {
    hide RingOf, Outer;
    OuterZero(n);
    var r := RingOf(n, v, 0);
    if k < r {
      OuterMonotone(n, k, r);
    } else if r < k {
      OuterMonotone(n, r, k);
    }
  }

  lemma CellOfPlace(n: nat, k: nat, d: int)
    requires 2 * k < n && 0 <= d < Border(n - 2 * k)
    ensures var p := Place(n, k, d); InGrid(n, p.0, p.1) && Cell(n, p.0, p.1) == Outer(n, k) + 1 + d
  {
    hide Outer;
    var p := Place(n, k, d);
    assert Ring(n, p.0, p.1) == k;
  }

  lemma PlaceOfCell(n: nat, i: int, j: int)
    requires InGrid(n, i, j)
    ensures var k := Ring(n, i, j); Place(n, k, Cell(n, i, j) - 1 - Outer(n, k)) == (i, j)
  {
    hide Outer;
  }

  /** Locate undoes Cell: no two cells share a number. */
  lemma LocateOfCell(n: nat, i: int, j: int)
    requires InGrid(n, i, j)
    ensures 1 <= Cell(n, i, j) <= n * n && Locate(n, Cell(n, i, j)) == (i, j)
  {
    hide Cell, Ring, RingOf, Outer, Place, Border;
    CellInRange(n, i, j);
    RingBounds(n, i, j);
    RingOfIs(n, Cell(n, i, j), Ring(n, i, j));
    PlaceOfCell(n, i, j);
  }

  /** Cell undoes Locate: every number 1..n*n is in some cell. */
  lemma CellOfLocate(n: nat, v: int)
    requires 1 <= v <= n * n
    ensures var p := Locate(n, v); InGrid(n, p.0, p.1) && Cell(n, p.0, p.1) == v
  {
    hide Cell, RingOf, Outer, Place, Border;
    OuterZero(n);
    var k := RingOf(n, v, 0);
    CellOfPlace(n, k, v - 1 - Outer(n, k));
  }

  /** Cell and Locate are the two directions of one bijection between the grid and 1..n*n. */
  lemma Bijection(n: nat, v: int, i: int, j: int)
    requires 1 <= v <= n * n && InGrid(n, i, j)
    ensures Locate(n, v) == (i, j) <==> Cell(n, i, j) == v
  {
    hide Cell, Locate;
    LocateOfCell(n, i, j);
    CellOfLocate(n, v);
  }

  predicate SideBySide(p: (int, int), q: (int, int)) {
    || (p.0 == q.0 && (p.1 == q.1 + 1 || q.1 == p.1 + 1))
    || (p.1 == q.1 && (p.0 == q.0 + 1 || q.0 == p.0 + 1))
  }

  lemma SameRing(n: nat, k: nat, d: int)
    requires 2 * k < n && 0 <= d && d + 1 < Border(n - 2 * k)
    ensures SideBySide(Place(n, k, d), Place(n, k, d + 1))
  {
  }

  /** The last cell of a ring is beside the first of the next. */
  lemma RingChange(n: nat, k: nat)
    requires n - 2 * k > 2
    ensures SideBySide(Place(n, k, Border(n - 2 * k) - 1), Place(n, k + 1, 0))
  {
  }

  /** The path of the spiral is connected: successive numbers are side by side. */
  lemma PathConnected(n: nat, v: int)
    requires 1 <= v < n * n
    ensures SideBySide(Locate(n, v), Locate(n, v + 1))
  {
    hide RingOf, Outer, Place, SideBySide;
    OuterZero(n);
    var k := RingOf(n, v, 0);
    OuterStep(n, k);
    if v < Outer(n, k) + Border(n - 2 * k) {
      RingOfIs(n, v + 1, k);
      SameRing(n, k, v - 1 - Outer(n, k));
    } else {
      RingOfIs(n, v + 1, k + 1);
      RingChange(n, k);
    }
  }

  // The walk, without the closed form: straight on while the cell ahead is free, else a turn to the right.

  /** The cell one step from q in the direction in which q was reached from p. */
  function Ahead(p: (int, int), q: (int, int)): (int, int) {
    (2 * q.0 - p.0, 2 * q.1 - p.1)
  }

  /** The cell to the right of that direction. */
  function ToTheRight(p: (int, int), q: (int, int)): (int, int) {
    (q.0 + (q.1 - p.1), q.1 - (q.0 - p.0))
  }

  /** When the number v + 1 is written: not yet used are the cells with numbers above v. */
  predicate Free(n: nat, v: int, c: (int, int)) {
    0 <= c.0 < n && 0 <= c.1 < n && Cell(n, c.0, c.1) > v
  }

  /** The step rule at three successive cells. */
  predicate Walks(n: nat, v: int, p: (int, int), q: (int, int), r: (int, int)) {
    r == if Free(n, v, Ahead(p, q)) then Ahead(p, q) else ToTheRight(p, q)
  }

  /** Cells outside ring k have numbers no higher than the rings outside it hold. */
  lemma OutsideRing(n: nat, k: nat, i: int, j: int)
    requires 2 * k < n && InGrid(n, i, j) && Ring(n, i, j) < k
    ensures Cell(n, i, j) <= Outer(n, k)
  {
    hide Cell, Outer, Border;
    RingBounds(n, i, j);
    OuterMonotone(n, Ring(n, i, j), k);
  }

  lemma WalksInRing(n: nat, k: nat, d: int)
    requires 2 * k < n && 1 <= d && d + 1 < Border(n - 2 * k)
    ensures Walks(n, Outer(n, k) + 1 + d, Place(n, k, d - 1), Place(n, k, d), Place(n, k, d + 1))
  {
    hide Cell, Outer, Border;
    var m, v := n - 2 * k, Outer(n, k) + 1 + d;
    var p, q, r := Place(n, k, d - 1), Place(n, k, d), Place(n, k, d + 1);
    CellOfPlace(n, k, d + 1);
    var a := Ahead(p, q);
    if a != r {
      Corner(n, k, d);
      if InGrid(n, a.0, a.1) {
        OutsideRing(n, k, a.0, a.1);
      }
    }
  }

  /** Where a ring bends: the cell ahead is outside it. */
  lemma Corner(n: nat, k: nat, d: int)
    requires 2 * k < n && 1 <= d && d + 1 < Border(n - 2 * k)
    ensures var p, q, r := Place(n, k, d - 1), Place(n, k, d), Place(n, k, d + 1);
      var a := Ahead(p, q);
      a == r || (r == ToTheRight(p, q) && (InGrid(n, a.0, a.1) ==> Ring(n, a.0, a.1) < k))
  {
  }

  /** Into the next ring: from the last cell of a ring, whose cell ahead is the ring's first, to the right. */
  lemma WalksInto(n: nat, k: nat)
    requires n - 2 * k > 2
    ensures var last := Border(n - 2 * k) - 1;
      Walks(n, Outer(n, k) + 1 + last, Place(n, k, last - 1), Place(n, k, last), Place(n, k + 1, 0))
  {
    hide Cell, Outer;
    CellOfPlace(n, k, 0);
    assert Ahead(Place(n, k, 4 * (n - 2 * k - 1) - 2), Place(n, k, 4 * (n - 2 * k - 1) - 1)) == Place(n, k, 0);
  }

  /** And straight on along it. */
  lemma WalksOn(n: nat, k: nat)
    requires n - 2 * k > 3
    ensures var last := Border(n - 2 * k) - 1;
      Walks(n, Outer(n, k + 1) + 1, Place(n, k, last), Place(n, k + 1, 0), Place(n, k + 1, 1))
  {
    hide Cell, Outer;
    CellOfPlace(n, k + 1, 1);
  }

  /** The spiral is the walk that starts at the top left corner to the right and goes straight on while the cell ahead
      is inside the matrix and not yet written, and else turns to the right. */
  lemma SpiralWalks(n: nat, v: int)
    requires n >= 2 && 1 <= v < n * n
    ensures Locate(n, 1) == (0, 0) && Locate(n, 2) == (0, 1)
    ensures v > 1 ==> Walks(n, v, Locate(n, v - 1), Locate(n, v), Locate(n, v + 1))
  {
    hide RingOf, Outer, Place, Walks;
    Start(n);
    if v > 1 {
      OuterZero(n);
      var k := RingOf(n, v, 0);
      OuterStep(n, k);
      var d, last := v - 1 - Outer(n, k), Border(n - 2 * k) - 1;
      if d == 0 {
        OuterStep(n, k - 1);
        RingOfIs(n, v - 1, k - 1);
        RingOfIs(n, v + 1, k);
        WalksOn(n, k - 1);
      } else {
        RingOfIs(n, v - 1, k);
        if d < last {
          RingOfIs(n, v + 1, k);
          WalksInRing(n, k, d);
        } else {
          RingOfIs(n, v + 1, k + 1);
          WalksInto(n, k);
        }
      }
    }
  }

  lemma Start(n: nat)
    requires n >= 2
    ensures Locate(n, 1) == (0, 0) && Locate(n, 2) == (0, 1)
  {
    assert n * n >= 4;
    OuterZero(n);
    RingOfIs(n, 1, 0);
    RingOfIs(n, 2, 0);
  }

  /** Every cell whose number is below num already holds it. */
  ghost predicate FilledBelow(matrix: array2<int>, num: int)
    requires matrix.Length0 == matrix.Length1
    reads matrix
  {
    forall i, j :: InGrid(matrix.Length0, i, j) && Cell(matrix.Length0, i, j) < num
      ==> matrix[i, j] == Cell(matrix.Length0, i, j)
  }

  /** The cells written so far, in order, are the cells of 1, 2, 3, ... */
  ghost predicate FollowsSpiral(n: nat, trail: seq<(int, int)>) {
    |trail| <= n * n && forall t :: 0 <= t < |trail| ==> trail[t] == Locate(n, t + 1)
  }

  ghost predicate WrittenOnlyAt(trail: seq<(int, int)>, p: (int, int), t: int) {
    forall u :: 0 <= u < |trail| ==> (trail[u] == p <==> u == t)
  }

  /** A trail of n*n writes that follows the spiral writes each cell exactly once. */
  lemma EachCellOnce(n: nat, trail: seq<(int, int)>, i: int, j: int)
    requires FollowsSpiral(n, trail) && |trail| == n * n && InGrid(n, i, j)
    ensures exists t :: 0 <= t < |trail| && WrittenOnlyAt(trail, (i, j), t)
  {
    hide Cell, Locate;
    CellInRange(n, i, j);
    var t := Cell(n, i, j) - 1;
    forall u | 0 <= u < |trail|
      ensures trail[u] == (i, j) <==> u == t
    {
      Bijection(n, u + 1, i, j);
    }
    assert WrittenOnlyAt(trail, (i, j), t);
  }

  /** num - 1 numbers are written, in spiral order, and nothing written since has spoilt them. */
  ghost predicate Progress(matrix: array2<int>, num: int, trail: seq<(int, int)>)
    reads matrix
  {
    && matrix.Length0 == matrix.Length1
    && FilledBelow(matrix, num)
    && FollowsSpiral(matrix.Length0, trail) && |trail| == num - 1
  }

  /** One write of the spiral, followed by num++. */
  method Put(matrix: array2<int>, i: int, j: int, num: int, ghost trail: seq<(int, int)>)
    returns (next: int, ghost longer: seq<(int, int)>)
    requires Progress(matrix, num, trail)
    requires InGrid(matrix.Length0, i, j) && Cell(matrix.Length0, i, j) == num
    modifies matrix
    ensures next == num + 1 && Progress(matrix, next, longer)
    ensures longer == trail + [(i, j)]
  {
    hide Cell, Locate;
    var n := matrix.Length0;
    LocateOfCell(n, i, j);
    forall r, c | InGrid(n, r, c) && Cell(n, r, c) == num
      ensures r == i && c == j
    {
      LocateOfCell(n, r, c);
    }
    matrix[i, j] := num;
    next, longer := num + 1, trail + [(i, j)];
  }

  // The four inner loops of ulitka, each for ring k of a matrix that is filled up to it.

  method FillTop(matrix: array2<int>, top: int, left: int, right: int, num0: int, ghost trail0: seq<(int, int)>)
    returns (num: int, ghost trail: seq<(int, int)>)
    requires Progress(matrix, num0, trail0)
    requires 0 <= left == top && right == matrix.Length0 - top > left
    requires num0 == Outer(matrix.Length0, top) + 1
    modifies matrix
    ensures num == num0 + (right - left) && Progress(matrix, num, trail)
  {
    num, trail := num0, trail0;
    for i := left to right
      invariant num == num0 + (i - left) && Progress(matrix, num, trail)
    {
      num, trail := Put(matrix, top, i, num, trail);
    }
  }

  method FillRight(matrix: array2<int>, top: int, bottom: int, right: int, num0: int, ghost trail0: seq<(int, int)>)
    returns (num: int, ghost trail: seq<(int, int)>)
    requires Progress(matrix, num0, trail0)
    requires 0 < top <= bottom == right == matrix.Length0 - top + 1
    requires num0 == Outer(matrix.Length0, top - 1) + 1 + (bottom - top + 1)
    modifies matrix
    ensures num == num0 + (bottom - top) && Progress(matrix, num, trail)
  {
    num, trail := num0, trail0;
    for i := top to bottom
      invariant num == num0 + (i - top) && Progress(matrix, num, trail)
    {
      num, trail := Put(matrix, i, right - 1, num, trail);
    }
  }

  method FillBottom(matrix: array2<int>, bottom: int, left: int, right: int, num0: int, ghost trail0: seq<(int, int)>)
    returns (num: int, ghost trail: seq<(int, int)>)
    requires Progress(matrix, num0, trail0)
    requires 0 <= left <= right && right + 1 == bottom == matrix.Length0 - left
    requires num0 == Outer(matrix.Length0, left) + 1 + 2 * (right - left) + 1
    modifies matrix
    ensures num == num0 + (right - left) && Progress(matrix, num, trail)
  {
    num, trail := num0, trail0;
    var i := right - 1;
    while i >= left
      invariant left - 1 <= i <= right - 1
      invariant num == num0 + (right - 1 - i) && Progress(matrix, num, trail)
    {
      num, trail := Put(matrix, bottom - 1, i, num, trail);
      i := i - 1;
    }
  }

  method FillLeft(matrix: array2<int>, top: int, bottom: int, left: int, num0: int, ghost trail0: seq<(int, int)>)
    returns (num: int, ghost trail: seq<(int, int)>)
    requires Progress(matrix, num0, trail0)
    requires 0 <= left && top == left + 1 && bottom + 1 == matrix.Length0 - left && bottom >= left
    requires num0 == Outer(matrix.Length0, left) + 1 + 3 * (bottom - left) + 1
    modifies matrix
    ensures num == num0 + (if bottom >= top then bottom - top else 0) && Progress(matrix, num, trail)
  {
    num, trail := num0, trail0;
    var i := bottom - 1;
    while i >= top
      invariant top - 1 <= i || i == bottom - 1
      invariant i <= bottom - 1
      invariant num == num0 + (bottom - 1 - i) && Progress(matrix, num, trail)
    {
      num, trail := Put(matrix, i, left, num, trail);
      i := i - 1;
    }
  }

  /** ulitka: ok is false for a size that is not positive, which the program refuses. */
  method Ulitka(size: int) returns (ok: bool, matrix: array2<int>, num: int, ghost trail: seq<(int, int)>)
    ensures ok == (size > 0)
    ensures ok ==> matrix.Length0 == matrix.Length1 == size && num == size * size + 1
    ensures ok ==> forall i, j :: InGrid(size, i, j) ==> matrix[i, j] == Cell(size, i, j)
    ensures ok ==> |trail| == size * size && FollowsSpiral(size, trail)
  {
    num, trail := 1, [];
    if size <= 0 {
      ok, matrix := false, new int[0, 0];
      return;
    }
    ok := true;
    var n: nat := size;
    matrix := new int[n, n];
    var top, bottom, left, right := 0, n, 0, n;
    forall i, j | InGrid(n, i, j)
      ensures 1 <= Cell(n, i, j) <= n * n
    {
      CellInRange(n, i, j);
    }
    while num <= n * n
      invariant 0 <= top == left && bottom == right == n - top && -1 <= n - 2 * top
      invariant num == if n - 2 * top == -1 then n * n + 1 else Outer(n, top) + 1
      invariant Progress(matrix, num, trail)
      decreases n - 2 * top
    {
      OuterStep(n, top);
      assert n - 2 * top != 0;
      num, trail := FillTop(matrix, top, left, right, num, trail);
      top := top + 1;
      num, trail := FillRight(matrix, top, bottom, right, num, trail);
      right := right - 1;
      num, trail := FillBottom(matrix, bottom, left, right, num, trail);
      bottom := bottom - 1;
      num, trail := FillLeft(matrix, top, bottom, left, num, trail);
      left := left + 1;
    }
  }
}
