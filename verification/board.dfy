/** The pure, copy-on-write grid transformations of the visualizer component:
    building the initial board, toggling walls, moving the start and finish
    markers, and resetting the per-run search fields. */
module Board {
  import opened Scores
  import opened Grid

  const GRID_ROWS: nat := 20
  const GRID_COLS: nat := 50
  const DEFAULT_START: Coord := Coord(10, 5)
  const DEFAULT_FINISH: Coord := Coord(10, 45)

  /** A fresh cell. The source leaves `isVisited` and the three scores
      undefined here; `false` and `Infinity` behave the same for every reader
      (the neighbour filter negates `isVisited`, and the scores are always
      reset by the search snapshot before the search reads them). */
  function CreateNode(col: nat, row: nat, startPos: Coord, finishPos: Coord): Node {
    Node(col, row,
         row == startPos.row && col == startPos.col,
         row == finishPos.row && col == finishPos.col,
         false, Inf, None, false, Inf, Inf, Inf)
  }

  /** `GRID_ROWS` rows of `GRID_COLS` fresh cells, row-major. */
  function CreateInitialGrid(startPos: Coord, finishPos: Coord): (g: Grid)
    ensures |g| == GRID_ROWS && forall r :: 0 <= r < |g| ==> |g[r]| == GRID_COLS
    ensures WellFormed(g)
    ensures forall c :: InBounds(g, c) ==>
              && (At(g, c).isStart <==> c == startPos)
              && (At(g, c).isFinish <==> c == finishPos)
              && !At(g, c).isWall
              && At(g, c).distance == Inf
              && At(g, c).previous == None
  {
    seq(GRID_ROWS, r requires 0 <= r => seq(GRID_COLS, c requires 0 <= c => CreateNode(c, r, startPos, finishPos)))
  }

  /** Exactly one cell is the start, at `s`. */
  ghost predicate OnlyStartAt(g: Grid, s: Coord) {
    forall c :: InBounds(g, c) ==> (At(g, c).isStart <==> c == s)
  }

  /** Exactly one cell is the finish, at `f`. */
  ghost predicate OnlyFinishAt(g: Grid, f: Coord) {
    forall c :: InBounds(g, c) ==> (At(g, c).isFinish <==> c == f)
  }

  /** What the component keeps true of its board between user actions: one
      start and one finish at the recorded positions, neither of them a wall.
      Start and finish may share a cell. */
  ghost predicate MarkersPlaced(g: Grid, s: Coord, f: Coord) {
    && WellFormed(g)
    && InBounds(g, s) && InBounds(g, f)
    && OnlyStartAt(g, s) && OnlyFinishAt(g, f)
    && !At(g, s).isWall && !At(g, f).isWall
  }

  lemma InitialBoardPlacesMarkers(s: Coord, f: Coord)
    requires s.row < GRID_ROWS && s.col < GRID_COLS
    requires f.row < GRID_ROWS && f.col < GRID_COLS
    ensures MarkersPlaced(CreateInitialGrid(s, f), s, f)
    ensures forall c :: InBounds(CreateInitialGrid(s, f), c) ==> !At(CreateInitialGrid(s, f), c).isWall
  {
  }

  /** Flips the wall flag of one cell, unless it is the start or the finish, in
      which case the grid is returned as it was. */
  function ToggleWall(g: Grid, row: nat, col: nat): (r: Grid)
    requires InBounds(g, Coord(row, col))
    ensures At(g, Coord(row, col)).isStart || At(g, Coord(row, col)).isFinish ==> r == g
    ensures !At(g, Coord(row, col)).isStart && !At(g, Coord(row, col)).isFinish ==>
              && SameShape(g, r)
              && At(r, Coord(row, col)) == At(g, Coord(row, col)).(isWall := !At(g, Coord(row, col)).isWall)
              && forall d :: InBounds(g, d) && d != Coord(row, col) ==> At(r, d) == At(g, d)
    ensures WellFormed(g) ==> WellFormed(r)
  {
    var c := Coord(row, col);
    var node := At(g, c);
    if node.isStart || node.isFinish then g
    else SetNode(g, c, node.(isWall := !node.isWall))
  }

  /** Toggling the same cell twice gives back the original grid. */
  lemma ToggleWallTwice(g: Grid, row: nat, col: nat)
    requires InBounds(g, Coord(row, col))
    ensures InBounds(ToggleWall(g, row, col), Coord(row, col))
    ensures ToggleWall(ToggleWall(g, row, col), row, col) == g
  {
    var c := Coord(row, col);
    var once := ToggleWall(g, row, col);
    if !At(g, c).isStart && !At(g, c).isFinish {
      GridsEqual(ToggleWall(once, row, col), g);
    }
  }

  /** Toggling walls never disturbs the markers. */
  lemma ToggleWallKeepsMarkers(g: Grid, s: Coord, f: Coord, row: nat, col: nat)
    requires MarkersPlaced(g, s, f) && InBounds(g, Coord(row, col))
    ensures MarkersPlaced(ToggleWall(g, row, col), s, f)
  {
  }

  datatype Marker = Start | Finish

  function SetMarker(n: Node, m: Marker, on: bool): Node {
    match m
    case Start => n.(isStart := on)
    case Finish => n.(isFinish := on)
  }

  /** Drag of the start or finish marker from `prev` to `next`: the marker is
      cleared at `prev`, then set at `next`, where any wall is removed. Nothing
      stops the two markers from landing on the same cell. */
  function MoveMarker(g: Grid, m: Marker, prev: Coord, next: Coord): (r: Grid)
    requires InBounds(g, prev) && InBounds(g, next)
    ensures SameShape(g, r)
    ensures At(r, next) == SetMarker(At(g, next), m, true).(isWall := false)
    ensures prev != next ==> At(r, prev) == SetMarker(At(g, prev), m, false)
    ensures forall d :: InBounds(g, d) && d != prev && d != next ==> At(r, d) == At(g, d)
    ensures WellFormed(g) ==> WellFormed(r)
  {
    var cleared := SetNode(g, prev, SetMarker(At(g, prev), m, false));
    SetNode(cleared, next, SetMarker(At(cleared, next), m, true).(isWall := false))
  }

  /** Moving the start keeps exactly one start, now at the new position, and
      leaves the finish where it was. */
  lemma MoveStartKeepsMarkers(g: Grid, s: Coord, f: Coord, next: Coord)
    requires MarkersPlaced(g, s, f) && InBounds(g, next)
    ensures MarkersPlaced(MoveMarker(g, Start, s, next), next, f)
  {
  }

  /** Moving the finish keeps exactly one finish, now at the new position, and
      leaves the start where it was. */
  lemma MoveFinishKeepsMarkers(g: Grid, s: Coord, f: Coord, next: Coord)
    requires MarkersPlaced(g, s, f) && InBounds(g, next)
    ensures MarkersPlaced(MoveMarker(g, Finish, f, next), s, next)
  {
  }

  function ResetSearchFields(n: Node): Node {
    n.(isVisited := false, distance := Inf, previous := None,
       fScore := Inf, gScore := Inf, hScore := Inf)
  }

  /** The copy of the board handed to a search run: layout kept, every search
      field reset. */
  function SearchSnapshot(g: Grid): (r: Grid)
    ensures LayoutKept(g, r)
    ensures IsSearchReset(r)
    ensures WellFormed(g) ==> WellFormed(r)
  {
    MapNodes(g, ResetSearchFields)
  }

  /** The snapshot depends only on the layout of the board: leftovers of
      earlier runs cannot leak into the next one. */
  lemma SnapshotDependsOnlyOnLayout(g: Grid, h: Grid)
    requires LayoutKept(g, h)
    ensures SearchSnapshot(g) == SearchSnapshot(h)
  {
    GridsEqual(SearchSnapshot(g), SearchSnapshot(h));
  }

  function ClearLinks(n: Node): Node {
    n.(distance := Inf, previous := None)
  }

  /** "Clear path": resets the distance and the predecessor link of every cell
      and keeps every other field. */
  function ClearPath(g: Grid): (r: Grid)
    ensures SameShape(g, r)
    ensures forall c :: InBounds(g, c) ==>
              && At(r, c).distance == Inf && At(r, c).previous == None
              && At(r, c).(distance := At(g, c).distance, previous := At(g, c).previous) == At(g, c)
    ensures WellFormed(g) ==> WellFormed(r)
  {
    MapNodes(g, ClearLinks)
  }

  lemma ClearPathIdempotent(g: Grid)
    ensures ClearPath(ClearPath(g)) == ClearPath(g)
  {
    GridsEqual(ClearPath(ClearPath(g)), ClearPath(g));
  }

  /** Clearing the path before a run makes no difference to the run's input. */
  lemma SnapshotAbsorbsClearPath(g: Grid)
    ensures SearchSnapshot(ClearPath(g)) == SearchSnapshot(g)
  {
    SnapshotDependsOnlyOnLayout(ClearPath(g), g);
  }
}
