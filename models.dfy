/** The entities of the Hidoku board: cells, moves and the board configuration. */
module Models {

  datatype Option<T> = None | Some(value: T)

  /** A king-move offset; `Move` is imported by the path-generation engine. */
  datatype Move = Move(row: int, col: int)

  /**
   * What a cell holds at one moment: its value (0 = not yet on the path),
   * its shown label (None = hidden) and whether it is an end of the path.
   */
  datatype CellState = CellState(value: int, labelValue: Option<int>, isEdge: bool)

  /** showValue: the label becomes the value. */
  function Shown(c: CellState): (d: CellState)
    ensures d.labelValue == Some(c.value)
    ensures d.value == c.value && d.isEdge == c.isEdge
  {
    c.(labelValue := Some(c.value))
  }

  /** hideValue: the label is cleared. */
  function Hidden(c: CellState): (d: CellState)
    ensures d.labelValue == None
    ensures d.value == c.value && d.isEdge == c.isEdge
  {
    c.(labelValue := None)
  }

  /** Showing, like hiding, is idempotent, and each undoes the other's effect on the label. */
  lemma ShowHideLaws(c: CellState)
    ensures Shown(Shown(c)) == Shown(c) && Hidden(Hidden(c)) == Hidden(c)
    ensures Shown(Hidden(c)) == Shown(c) && Hidden(Shown(c)) == Hidden(c)
  {
  }

  /**
   * One board cell.  The value, the shown label and the path-endpoint mark
   * change in place.
   */
  class Cell {
    var value: int
    var labelValue: Option<int>
    var isEdge: bool

    constructor (value: int := 0, labelValue: Option<int> := None)
      ensures State() == CellState(value, labelValue, false)
    {
      this.value := value;
      this.labelValue := labelValue;
      isEdge := false;
    }

    function State(): CellState
      reads this
    {
      CellState(value, labelValue, isEdge)
    }

    /** Shows the cell: its label becomes its current value. */
    method ShowValue()
      modifies this`labelValue
      ensures State() == Shown(old(State()))
    {
      labelValue := Some(value);
    }

    /** Hides the cell: it has no label any more. */
    method HideValue()
      modifies this`labelValue
      ensures State() == Hidden(old(State()))
    {
      labelValue := None;
    }
  }

  /** The three form fields a board is generated from. */
  datatype GridForm = GridForm(filas: int, columnas: int, dificultad: int)

  /**
   * Per-generation configuration.  The constructor copies the three form
   * fields; the derived bounds and the path length are what the engine
   * reads: rowIndexes = filas - 1, colIndexes = columnas - 1 and
   * quantity = filas * columnas.
   */
  class GridInfo {
    const filas: int
    const columnas: int
    const dificultad: int
    const rowIndexes: int
    const colIndexes: int
    const quantity: int

    constructor (value: GridForm)
      ensures filas == value.filas && columnas == value.columnas && dificultad == value.dificultad
      ensures rowIndexes == filas - 1 && colIndexes == columnas - 1
      ensures quantity == (rowIndexes + 1) * (colIndexes + 1)
    {
      filas := value.filas;
      columnas := value.columnas;
      dificultad := value.dificultad;
      rowIndexes := value.filas - 1;
      colIndexes := value.columnas - 1;
      quantity := value.filas * value.columnas;
    }
  }

  /** A board of at least one row and one column has at least one cell. */
  lemma QuantityPositive(info: GridInfo)
    requires info.rowIndexes >= 0 && info.colIndexes >= 0
    requires info.quantity == (info.rowIndexes + 1) * (info.colIndexes + 1)
    ensures info.quantity >= 1
    ensures info.quantity >= info.rowIndexes + 1 && info.quantity >= info.colIndexes + 1
  {
    var rows, cols := info.rowIndexes + 1, info.colIndexes + 1;
    assert rows * cols == rows * (cols - 1) + rows;
    assert rows * cols == (rows - 1) * cols + cols;
  }
}
