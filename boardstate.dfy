/**
 * Snapshots of the board: the value, label and edge mark of every cell,
 * indexed [row][col].  A search step is specified by how it relates the
 * snapshot before it to the snapshot after it; that relation, the chains of
 * consecutive values and the solved board are all stated here on values.
 */
module BoardState {
  import opened Models

  datatype Position = Position(row: int, col: int)

  type State = seq<seq<CellState>>

  predicate Within(s: State, p: Position)
  {
    0 <= p.row < |s| && 0 <= p.col < |s[p.row]|
  }

  function At(s: State, p: Position): CellState
    requires Within(s, p)
  {
    s[p.row][p.col]
  }

  predicate SameShape(s: State, t: State)
  {
    |s| == |t| && forall r :: 0 <= r < |s| ==> |s[r]| == |t[r]|
  }

  /** rows rows of cols cells each. */
  predicate Rectangle(s: State, rows: int, cols: int)
  {
    |s| == rows && forall r :: 0 <= r < |s| ==> |s[r]| == cols
  }

  /** Inside [0, rowIndexes] x [0, colIndexes]. */
  predicate InBounds(p: Position, info: GridInfo)
  {
    0 <= p.row <= info.rowIndexes && 0 <= p.col <= info.colIndexes
  }

  /** The snapshot has the dimensions info describes. */
  predicate Shaped(s: State, info: GridInfo)
  {
    Rectangle(s, info.rowIndexes + 1, info.colIndexes + 1)
  }

  /** On a shaped board the positions of cells are exactly the in-bounds ones. */
  lemma ShapedWithin(s: State, info: GridInfo, p: Position)
    requires Shaped(s, info)
    ensures Within(s, p) <==> InBounds(p, info)
  {
  }

  ghost predicate AllEmpty(s: State)
  {
    forall p :: Within(s, p) ==> At(s, p).value == 0
  }

  lemma SameShapeRectangle(s: State, t: State, rows: int, cols: int)
    requires Rectangle(s, rows, cols) && SameShape(s, t)
    ensures Rectangle(t, rows, cols)
  {
  }

  /** The snapshot with the cell at p replaced by x. */
  function Update(s: State, p: Position, x: CellState): (t: State)
    requires Within(s, p)
    ensures SameShape(s, t) && Within(t, p) && At(t, p) == x
    ensures forall q :: Within(s, q) && q != p ==> At(t, q) == At(s, q)
  {
    s[p.row := s[p.row][p.col := x]]
  }

  /** The snapshot after writing value x into the cell at p. */
  function SetValue(s: State, p: Position, x: int): State
    requires Within(s, p)
  {
    Update(s, p, At(s, p).(value := x))
  }

  /**
   * Writing a value changes the value at p and nothing else: the label and
   * the edge mark at p, the shape and every other cell stay as they were.
   */
  lemma SetValueEffect(s: State, p: Position, x: int)
    requires Within(s, p)
    ensures var t := SetValue(s, p, x);
            SameShape(s, t) && At(t, p).value == x &&
            At(t, p).labelValue == At(s, p).labelValue && At(t, p).isEdge == At(s, p).isEdge &&
            forall q :: Within(s, q) && q != p ==> At(t, q) == At(s, q)
  {
  }

  /** Two snapshots of one shape that agree at every position are equal. */
  lemma SameStates(s: State, t: State)
    requires SameShape(s, t)
    requires forall q :: Within(s, q) ==> At(s, q) == At(t, q)
    ensures s == t
  {
    forall r | 0 <= r < |s| ensures s[r] == t[r] {
      forall c | 0 <= c < |s[r]| ensures s[r][c] == t[r][c] {
        assert At(s, Position(r, c)) == At(t, Position(r, c));
      }
    }
  }

  /** Writing a value and then writing back the old one restores the snapshot. */
  lemma SetValueUndone(s: State, t: State, p: Position, x: int)
    requires Within(s, p) && t == SetValue(s, p, x)
    ensures SetValue(t, p, At(s, p).value) == s
  {
    SameStates(SetValue(t, p, At(s, p).value), s);
  }

  /** Two distinct positions at most one row and one column apart. */
  predicate KingAdjacent(p: Position, q: Position)
  {
    p != q && -1 <= p.row - q.row <= 1 && -1 <= p.col - q.col <= 1
  }

  /** The positions still holding value 0: the measure the searches use up. */
  function EmptyIn(s: State): set<Position>
  {
    set r, c | 0 <= r < |s| && 0 <= c < |s[r]| && s[r][c].value == 0 :: Position(r, c)
  }

  /** Putting a non-zero value on an empty position removes exactly that position. */
  lemma FillShrinksEmpty(s: State, p: Position, x: int)
    requires Within(s, p) && At(s, p).value == 0 && x != 0
    ensures EmptyIn(SetValue(s, p, x)) == EmptyIn(s) - {p}
    ensures EmptyIn(SetValue(s, p, x)) < EmptyIn(s)
  {
    var t := SetValue(s, p, x);
    assert p in EmptyIn(s);
    forall q | q in EmptyIn(s) - {p} ensures q in EmptyIn(t) {
      assert At(t, q) == At(s, q);
    }
  }

  /**
   * path is a walk of positions, each king-adjacent to the next, holding
   * the values v, v + 1, ..., v + |path| - 1.
   */
  predicate IsChain(s: State, path: seq<Position>, v: int)
  {
    |path| > 0 &&
    (forall i :: 0 <= i < |path| ==> Within(s, path[i]) && At(s, path[i]).value == v + i) &&
    (forall i :: 0 <= i < |path| - 1 ==> KingAdjacent(path[i], path[i + 1]))
  }

  /**
   * s1 extends s0 by the chain path from v: path starts on a position that
   * already held v, every later position of path was empty, every position
   * off the path keeps its value, and only the last position of the path
   * may change its label or edge mark.
   */
  ghost predicate Extended(s0: State, s1: State, path: seq<Position>, v: int)
  {
    SameShape(s0, s1) && IsChain(s1, path, v) &&
    At(s0, path[0]).value == v &&
    (forall i :: 1 <= i < |path| ==> At(s0, path[i]).value == 0) &&
    (forall q :: Within(s0, q) && q !in path ==> At(s1, q).value == At(s0, q).value) &&
    (forall q :: Within(s0, q) && q != path[|path| - 1] ==>
       At(s1, q).labelValue == At(s0, q).labelValue && At(s1, q).isEdge == At(s0, q).isEdge)
  }

  /** No position that held a non-zero value was overwritten. */
  ghost predicate NonZeroKept(s0: State, s1: State)
    requires SameShape(s0, s1)
  {
    forall q :: Within(s0, q) && At(s0, q).value != 0 ==> At(s1, q).value == At(s0, q).value
  }

  /** An extension only writes empty positions. */
  lemma ExtendedKeepsNonZero(s0: State, s1: State, path: seq<Position>, v: int)
    requires Extended(s0, s1, path, v)
    ensures NonZeroKept(s0, s1)
  {
    forall q | Within(s0, q) && At(s0, q).value != 0
      ensures At(s1, q).value == At(s0, q).value
    {
      if q in path {
        var i :| 0 <= i < |path| && path[i] == q;
        assert i == 0;
      }
    }
  }

  /** No position changed its label or its edge mark. */
  ghost predicate MarksKept(s0: State, s1: State)
    requires SameShape(s0, s1)
  {
    forall q :: Within(s0, q) ==>
      At(s1, q).labelValue == At(s0, q).labelValue && At(s1, q).isEdge == At(s0, q).isEdge
  }

  /** Writing a value keeps every mark, so marks kept after the write are kept from before it. */
  lemma SetValueKeepsMarks(s0: State, s1: State, s2: State, p: Position, x: int)
    requires Within(s0, p) && s1 == SetValue(s0, p, x)
    requires SameShape(s1, s2) && MarksKept(s1, s2)
    ensures SameShape(s0, s2) && MarksKept(s0, s2)
  {
    forall q | Within(s0, q)
      ensures At(s2, q).labelValue == At(s0, q).labelValue && At(s2, q).isEdge == At(s0, q).isEdge
    {
      assert Within(s1, q);
    }
  }

  /** Leaving the snapshot as it is extends it by the one-cell chain [p]. */
  lemma NothingWrittenIsExtension(s: State, p: Position)
    requires Within(s, p)
    ensures Extended(s, s, [p], At(s, p).value) && MarksKept(s, s)
  {
  }

  /**
   * One greedy step: writing the next value on an empty position q next to
   * the end of path extends the snapshot by path + [q]; no mark changes.
   */
  lemma AppendIsExtension(s0: State, s1: State, s2: State, path: seq<Position>, q: Position, v: int)
    requires Extended(s0, s1, path, v) && MarksKept(s0, s1) && v >= 1
    requires Within(s1, q) && At(s1, q).value == 0 && KingAdjacent(path[|path| - 1], q)
    requires s2 == SetValue(s1, q, v + |path|)
    ensures Extended(s0, s2, path + [q], v) && MarksKept(s0, s2)
  {
    var path' := path + [q];
    forall i | 0 <= i < |path| ensures path[i] != q && At(s2, path[i]) == At(s1, path[i]) {
      assert At(s1, path[i]).value == v + i;
    }
    assert At(s0, q).value == 0 by {
      assert q !in path;
    }
    assert IsChain(s2, path', v) by {
      forall i | 0 <= i < |path'| ensures Within(s2, path'[i]) && At(s2, path'[i]).value == v + i {
        if i < |path| {
          assert path'[i] == path[i];
        }
      }
      forall i | 0 <= i < |path'| - 1 ensures KingAdjacent(path'[i], path'[i + 1]) {
        if i < |path| - 1 {
          assert path'[i] == path[i] && path'[i + 1] == path[i + 1];
        }
      }
    }
    forall i | 1 <= i < |path'| ensures At(s0, path'[i]).value == 0 {
      if i < |path| {
        assert path'[i] == path[i];
      }
    }
    forall x | Within(s0, x) && x !in path' ensures At(s2, x).value == At(s0, x).value {
      assert x !in path && x != q;
    }
    forall x | Within(s0, x)
      ensures At(s2, x).labelValue == At(s0, x).labelValue && At(s2, x).isEdge == At(s0, x).isEdge
    {
      assert Within(s1, x);
    }
  }

  /** The cell at p marked as an end of the path and shown. */
  function MarkEdge(s: State, p: Position): (t: State)
    requires Within(s, p)
    ensures SameShape(s, t) && At(t, p) == CellState(At(s, p).value, Some(At(s, p).value), true)
  {
    Update(s, p, Shown(At(s, p).(isEdge := true)))
  }

  /** Writing x at p and marking it there puts the shown edge cell x at p. */
  lemma SetAndMark(s: State, t: State, p: Position, x: int)
    requires Within(s, p) && t == MarkEdge(SetValue(s, p, x), p)
    ensures t == Update(s, p, CellState(x, Some(x), true))
  {
    SameStates(t, Update(s, p, CellState(x, Some(x), true)));
  }

  /** Marking the cell at p, which holds v, is an extension by the one-cell chain [p]. */
  lemma MarkIsExtension(s: State, p: Position)
    requires Within(s, p)
    ensures Extended(s, MarkEdge(s, p), [p], At(s, p).value)
  {
  }

  /**
   * One search step: writing v + 1 on an empty position q next to p, which
   * holds v, and extending from q by sub extends the snapshot from p by
   * [p] + sub.
   */
  lemma StepIsExtension(s0: State, s1: State, s2: State, p: Position, q: Position, sub: seq<Position>, v: int)
    requires Within(s0, p) && At(s0, p).value == v && v != 0
    requires Within(s0, q) && At(s0, q).value == 0 && KingAdjacent(p, q)
    requires s1 == SetValue(s0, q, v + 1)
    requires Extended(s1, s2, sub, v + 1) && sub[0] == q
    ensures Extended(s0, s2, [p] + sub, v)
  {
    var path := [p] + sub;
    StepChain(s0, s1, s2, p, q, sub, v);
    forall i | 1 <= i < |path| ensures At(s0, path[i]).value == 0 {
      assert path[i] == sub[i - 1];
    }
    assert path[|path| - 1] == sub[|sub| - 1];
    StepFrame(s0, s1, s2, p, q, sub, v);
  }

  /** The frame part of a search step: off [p] + sub nothing changed, and no mark changed but at its end. */
  lemma StepFrame(s0: State, s1: State, s2: State, p: Position, q: Position, sub: seq<Position>, v: int)
    requires Within(s0, q) && s1 == SetValue(s0, q, v + 1)
    requires Extended(s1, s2, sub, v + 1) && sub[0] == q
    ensures forall x :: Within(s0, x) && x !in [p] + sub ==> At(s2, x).value == At(s0, x).value
    ensures forall x :: Within(s0, x) && x != sub[|sub| - 1] ==>
              At(s2, x).labelValue == At(s0, x).labelValue && At(s2, x).isEdge == At(s0, x).isEdge
  {
    forall x | Within(s0, x) && x !in [p] + sub ensures At(s2, x).value == At(s0, x).value {
      assert x != q;
    }
    forall x | Within(s0, x) && x != sub[|sub| - 1]
      ensures At(s2, x).labelValue == At(s0, x).labelValue && At(s2, x).isEdge == At(s0, x).isEdge
    {
      assert Within(s1, x);
    }
  }

  /** The chain part of a search step: [p] + sub is a chain from v over positions s0 had empty after p. */
  lemma StepChain(s0: State, s1: State, s2: State, p: Position, q: Position, sub: seq<Position>, v: int)
    requires Within(s0, p) && At(s0, p).value == v && v != 0
    requires Within(s0, q) && At(s0, q).value == 0 && KingAdjacent(p, q)
    requires s1 == SetValue(s0, q, v + 1)
    requires Extended(s1, s2, sub, v + 1) && sub[0] == q
    ensures p !in sub && IsChain(s2, [p] + sub, v)
    ensures forall i :: 0 <= i < |sub| ==> At(s0, sub[i]).value == 0
  {
    var path := [p] + sub;
    assert At(s1, p).value == v;
    forall i | 0 <= i < |sub| ensures sub[i] != p && At(s0, sub[i]).value == 0 {
      if i > 0 {
        assert At(s1, sub[i]).value == 0;
        assert sub[i] != q by {
          assert At(s2, sub[i]).value != At(s2, sub[0]).value;
        }
      }
    }
    forall i | 1 <= i < |path| ensures Within(s2, path[i]) && At(s2, path[i]).value == v + i {
      assert path[i] == sub[i - 1];
    }
    forall i | 1 <= i < |path| - 1 ensures KingAdjacent(path[i], path[i + 1]) {
      assert path[i] == sub[i - 1] && path[i + 1] == sub[i];
    }
  }

  /**
   * A finished Hidoku: the values are exactly 1..quantity, each on one cell,
   * and the cells holding k and k + 1 are king-adjacent.
   */
  ghost predicate Solved(s: State, quantity: int)
  {
    (forall p :: Within(s, p) ==> 1 <= At(s, p).value <= quantity) &&
    (forall p, q :: Within(s, p) && Within(s, q) && At(s, p).value == At(s, q).value ==> p == q) &&
    (forall v :: 1 <= v <= quantity ==> v in Values(s)) &&
    (forall p :: Within(s, p) && At(s, p).value < quantity ==>
       exists q :: Within(s, q) && KingAdjacent(p, q) && At(s, q).value == At(s, p).value + 1)
  }

  /** The values the snapshot holds. */
  function Values(s: State): set<int>
  {
    set r, c | 0 <= r < |s| && 0 <= c < |s[r]| :: s[r][c].value
  }

  // ---------------------------------------------------------------------------
  // Counting positions: a chain of rows * cols distinct positions covers the box.

  function RowSet(r: int, cols: nat): set<Position>
  {
    set c | 0 <= c < cols :: Position(r, c)
  }

  function BoxSet(rows: nat, cols: nat): set<Position>
  {
    set r, c | 0 <= r < rows && 0 <= c < cols :: Position(r, c)
  }

  lemma {:induction false} RowSetSize(r: int, cols: nat)
    ensures |RowSet(r, cols)| == cols
  {
    if cols > 0 {
      RowSetSize(r, cols - 1);
      assert RowSet(r, cols) == RowSet(r, cols - 1) + {Position(r, cols - 1)};
    } else {
      assert RowSet(r, cols) == {};
    }
  }

  lemma {:induction false} BoxSetSize(rows: nat, cols: nat)
    ensures |BoxSet(rows, cols)| == rows * cols
  {
    if rows > 0 {
      var top, bottom := BoxSet(rows - 1, cols), RowSet(rows - 1, cols);
      BoxSetSize(rows - 1, cols);
      RowSetSize(rows - 1, cols);
      assert BoxSet(rows, cols) == top + bottom by {
        forall p | p in BoxSet(rows, cols) ensures p in top + bottom {
          assert p == Position(p.row, p.col);
          if p.row < rows - 1 {
            assert p in top;
          } else {
            assert p in bottom;
          }
        }
      }
      assert top * bottom == {} by {
        forall p | p in bottom ensures p !in top {
        }
      }
      assert |top + bottom| == |top| + |bottom|;
      assert rows * cols == (rows - 1) * cols + cols;
    } else {
      assert BoxSet(rows, cols) == {};
    }
  }

  function Elements(ps: seq<Position>): set<Position>
  {
    set i | 0 <= i < |ps| :: ps[i]
  }

  lemma {:induction false} DistinctElementsSize(ps: seq<Position>)
    requires forall i, j :: 0 <= i < j < |ps| ==> ps[i] != ps[j]
    ensures |Elements(ps)| == |ps|
  {
    if ps != [] {
      var front := ps[..|ps| - 1];
      DistinctElementsSize(front);
      assert Elements(ps) == Elements(front) + {ps[|ps| - 1]};
      assert ps[|ps| - 1] !in Elements(front);
    } else {
      assert Elements(ps) == {};
    }
  }

  /** Pigeonhole: rows * cols distinct positions inside the box are all of it. */
  lemma DistinctPositionsCoverBox(ps: seq<Position>, rows: nat, cols: nat)
    requires |ps| == rows * cols
    requires forall i :: 0 <= i < |ps| ==> 0 <= ps[i].row < rows && 0 <= ps[i].col < cols
    requires forall i, j :: 0 <= i < j < |ps| ==> ps[i] != ps[j]
    ensures forall r, c :: 0 <= r < rows && 0 <= c < cols ==> Position(r, c) in ps
  {
    DistinctElementsSize(ps);
    BoxSetSize(rows, cols);
    var s, b := Elements(ps), BoxSet(rows, cols);
    assert s <= b;
    assert |b - s| == 0;
    forall r, c | 0 <= r < rows && 0 <= c < cols
      ensures Position(r, c) in ps
    {
      assert Position(r, c) in b;
      assert Position(r, c) in s;
    }
  }

  /** A chain of as many positions as the board has cells visits every one of them. */
  lemma FullChainCovers(s: State, rows: nat, cols: nat, path: seq<Position>)
    requires Rectangle(s, rows, cols)
    requires IsChain(s, path, 1) && |path| == rows * cols
    ensures forall p :: Within(s, p) ==> p in path
  {
    forall i, j | 0 <= i < j < |path| ensures path[i] != path[j] {
      assert At(s, path[i]).value != At(s, path[j]).value;
    }
    forall i | 0 <= i < |path| ensures 0 <= path[i].row < rows && 0 <= path[i].col < cols {
      assert Within(s, path[i]);
    }
    DistinctPositionsCoverBox(path, rows, cols);
    forall p | Within(s, p) ensures p in path {
      assert Position(p.row, p.col) == p;
    }
  }

  /** A chain from 1 through every position leaves the board solved. */
  lemma CoveringChainSolves(s: State, path: seq<Position>, quantity: int)
    requires IsChain(s, path, 1) && |path| == quantity
    requires forall p :: Within(s, p) ==> p in path
    ensures Solved(s, quantity)
  {
    forall p, q | Within(s, p) && Within(s, q) && At(s, p).value == At(s, q).value
      ensures p == q
    {
      var i :| 0 <= i < |path| && path[i] == p;
      var j :| 0 <= j < |path| && path[j] == q;
      assert i == j;
    }
    forall p | Within(s, p) && At(s, p).value < quantity
      ensures exists q :: Within(s, q) && KingAdjacent(p, q) && At(s, q).value == At(s, p).value + 1
    {
      var i :| 0 <= i < |path| && path[i] == p;
      assert Within(s, path[i + 1]) && KingAdjacent(p, path[i + 1]);
    }
    forall v | 1 <= v <= quantity ensures v in Values(s) {
      var p := path[v - 1];
      assert s[p.row][p.col].value == v;
    }
  }

  /**
   * A chain from value 1 whose length is the number of cells visits every
   * cell once, so the board is solved.
   */
  lemma FullChainSolves(s: State, rows: nat, cols: nat, path: seq<Position>)
    requires Rectangle(s, rows, cols)
    requires IsChain(s, path, 1) && |path| == rows * cols
    ensures Solved(s, rows * cols)
  {
    FullChainCovers(s, rows, cols, path);
    CoveringChainSolves(s, path, rows * cols);
  }
}
