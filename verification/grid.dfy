/** The grid of cells shared by the board helpers and the search engine. */
module Grid {
  import opened Scores

  datatype Option<T> = None | Some(value: T)

  /** A cell position; it also stands for the reference to the cell object at
      that position, since a well-formed grid holds one cell per position. */
  datatype Coord = Coord(row: nat, col: nat)

  /** One cell record. `previous` is the predecessor link (`previousNode`),
      kept as the position of the predecessor rather than a reference. */
  datatype Node = Node(
    col: nat,
    row: nat,
    isStart: bool,
    isFinish: bool,
    isWall: bool,
    distance: Ext,
    previous: Option<Coord>,
    isVisited: bool,
    gScore: Ext,
    hScore: Ext,
    fScore: Ext)

  type Grid = seq<seq<Node>>

  function Pos(n: Node): Coord {
    Coord(n.row, n.col)
  }

  predicate InBounds(g: Grid, c: Coord) {
    c.row < |g| && c.col < |g[c.row]|
  }

  function At(g: Grid, c: Coord): Node
    requires InBounds(g, c)
  {
    g[c.row][c.col]
  }

  predicate AllIn(g: Grid, s: seq<Coord>) {
    forall i :: 0 <= i < |s| ==> InBounds(g, s[i])
  }

  /** Rectangular, non-empty, and every cell carries its own position. */
  ghost predicate WellFormed(g: Grid) {
    && |g| > 0
    && (forall r :: 0 <= r < |g| ==> |g[r]| == |g[0]|)
    && (forall c :: InBounds(g, c) ==> Pos(At(g, c)) == c)
  }

  ghost predicate SameShape(g: Grid, h: Grid) {
    |g| == |h| && forall r :: 0 <= r < |g| ==> |g[r]| == |h[r]|
  }

  /** The fields the search never writes: position, markers and walls. */
  predicate SameLayout(a: Node, b: Node) {
    a.row == b.row && a.col == b.col && a.isStart == b.isStart
    && a.isFinish == b.isFinish && a.isWall == b.isWall
  }

  ghost predicate LayoutKept(g: Grid, h: Grid) {
    SameShape(g, h) && forall c :: InBounds(g, c) ==> SameLayout(At(g, c), At(h, c))
  }

  /** The per-run search fields at their initial values: not visited, every
      score and the distance infinite, no predecessor. */
  predicate SearchFieldsReset(n: Node) {
    && !n.isVisited
    && n.distance == Inf && n.previous == None
    && n.gScore == Inf && n.hScore == Inf && n.fScore == Inf
  }

  ghost predicate IsSearchReset(g: Grid) {
    forall c :: InBounds(g, c) ==> SearchFieldsReset(At(g, c))
  }

  /** Along every predecessor link the g-score strictly drops, so following
      the links from any cell ends after finitely many steps. */
  ghost predicate LinksRanked(g: Grid) {
    forall c {:trigger RankedLink(g, c)} :: InBounds(g, c) ==> RankedLink(g, c)
  }

  ghost predicate RankedLink(g: Grid, c: Coord)
    requires InBounds(g, c)
  {
    match At(g, c).previous
    case None => true
    case Some(p) =>
      && InBounds(g, p)
      && At(g, c).gScore.Fin? && At(g, p).gScore.Fin?
      && At(g, p).gScore.n < At(g, c).gScore.n
  }

  lemma LayoutKeptTrans(a: Grid, b: Grid, c: Grid)
    requires LayoutKept(a, b) && LayoutKept(b, c)
    ensures LayoutKept(a, c)
  {
    forall d | InBounds(a, d)
      ensures InBounds(b, d) && SameLayout(At(a, d), At(c, d))
    {
      assert |a[d.row]| == |b[d.row]|;
      assert SameLayout(At(a, d), At(b, d)) && SameLayout(At(b, d), At(c, d));
    }
  }

  /** Orthogonal neighbours: one step up, down, left or right. */
  predicate Adjacent(a: Coord, b: Coord) {
    || (a.row == b.row && (a.col + 1 == b.col || b.col + 1 == a.col))
    || (a.col == b.col && (a.row + 1 == b.row || b.row + 1 == a.row))
  }

  predicate Distinct<T(==)>(s: seq<T>) {
    forall i, j :: 0 <= i < j < |s| ==> s[i] != s[j]
  }

  /** Replaces the cell at `c` in a copy of the grid. */
  function SetNode(g: Grid, c: Coord, n: Node): (r: Grid)
    requires InBounds(g, c)
    ensures SameShape(g, r)
    ensures InBounds(r, c) && At(r, c) == n
    ensures forall d :: InBounds(g, d) && d != c ==> InBounds(r, d) && At(r, d) == At(g, d)
    ensures WellFormed(g) && Pos(n) == c ==> WellFormed(r)
  {
    g[c.row := g[c.row][c.col := n]]
  }

  /** `grid.map(row => row.map(f))`. */
  function MapNodes(g: Grid, f: Node -> Node): (r: Grid)
    ensures SameShape(g, r)
    ensures forall c :: InBounds(g, c) ==> InBounds(r, c) && At(r, c) == f(At(g, c))
  {
    seq(|g|, i requires 0 <= i < |g| => seq(|g[i]|, j requires 0 <= j < |g[i]| => f(g[i][j])))
  }

  /** Two grids of the same shape that agree at every position are equal. */
  lemma GridsEqual(g: Grid, h: Grid)
    requires SameShape(g, h)
    requires forall c :: InBounds(g, c) ==> At(g, c) == At(h, c)
    ensures g == h
  {
    forall r | 0 <= r < |g|
      ensures g[r] == h[r]
    {
      forall j | 0 <= j < |g[r]|
        ensures g[r][j] == h[r][j]
      {
        assert InBounds(g, Coord(r, j));
      }
    }
  }
}
