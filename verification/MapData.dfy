/**
  MapData (Storage/MapData.cpp): loading a text grid into rows of numbers and
  an index of the walkable cells.
 */
module MapDatas {
  import opened Wire
  import opened MapText

  type Row = seq<I32>
  type Cell = (int, int)  // x, z

  // ------------------------------------------------------ what a load appends

  // The numbers of a row up to the first cell that stoi rejects.
  function RowOf(cells: seq<string>): (r: (Row, bool)) {
    if cells == [] then ([], true)
    else
      match Stoi(cells[0])
      case None => ([], false)
      case Some(v) => ([v] + RowOf(cells[1..]).0, RowOf(cells[1..]).1)
  }

  // The walkable cells of (the rest of) a row, from column x on.
  function WalkableOf(row: Row, x: int, z: int): seq<Cell> {
    if row == [] then [] else (if row[0] == 1 then [(x, z)] else []) + WalkableOf(row[1..], x + 1, z)
  }

  // The rows and index entries of some lines, and the row an exception left
  // unfinished, whose index entries stay.
  datatype Load = Load(rows: seq<Row>, index: seq<Cell>, partial: Row, complete: bool)

  function LoadLines(lines: seq<string>, z: nat): Load {
    if lines == [] then Load([], [], [], true)
    else
      var (row, ok) := RowOf(Segments(lines[0], ','));
      if !ok then Load([], WalkableOf(row, 0, z), row, false)
      else
        var l := LoadLines(lines[1..], z + 1);
        l.(rows := [row] + l.rows, index := WalkableOf(row, 0, z) + l.index)
  }

  function LoadText(text: string): Load {
    LoadLines(Segments(text, '\n'), 0)
  }

  datatype LoadResult = NotOpened | Returned | Thrown

  predicate Walkable(rows: seq<Row>, x: int, z: int) {
    0 <= x && 0 <= z < |rows| && x < |rows[z]| && rows[z][x] == 1
  }

  class MapData {
    var walkableMap: seq<Row>
    var walkablePosition: seq<Cell>

    constructor ()
      ensures walkableMap == [] && walkablePosition == []
    {
      walkableMap, walkablePosition := [], [];
    }

    // file is the content of the file at the path, if it can be opened.
    method LoadMapFromTxt(file: Option<string>) returns (r: LoadResult)
      modifies this
      ensures file.None? ==> r == NotOpened && unchanged(this)
      ensures file.Some? ==>
                var l := LoadText(file.value);
                && walkableMap == old(walkableMap) + l.rows
                && walkablePosition == old(walkablePosition) + l.index
                && r == if l.complete then Returned else Thrown
    {
      if file.None? {
        return NotOpened;
      }
      hide LoadText, Segments, RowOf, WalkableOf, Appended;
      var text := file.value;
      var pos, z := 0, 0;
      ghost var l := LoadText(text);
      assert text[0..] == text;
      AppendedStart(l, walkableMap, walkablePosition);
      while true
        invariant pos <= |text|
        invariant Appended(l, old(walkableMap), old(walkablePosition), walkableMap, walkablePosition,
                           LoadLines(Segments(text[pos..], '\n'), z))
        decreases |text| - pos
      {
        var more, line, next := GetLine(text, pos, '\n');
        if !more {
          break;
        }
        AppendedStep(l, old(walkableMap), old(walkablePosition), walkableMap, walkablePosition,
                     line, Segments(text[next..], '\n'), z);
        pos := next;
        var row, ok := LoadRow(line, z);
        if !ok {
          return Thrown;
        }
        walkableMap := walkableMap + [row];
        z := z + 1;
      }
      AppendedEnd(l, old(walkableMap), old(walkablePosition), walkableMap, walkablePosition, z);
      r := Returned;
    }

    // One line: its cells, each walkable one indexed at once.
    method LoadRow(line: string, z: nat) returns (row: Row, ok: bool)
      modifies `walkablePosition
      ensures (row, ok) == RowOf(Segments(line, ','))
      ensures walkablePosition == old(walkablePosition) + WalkableOf(row, 0, z)
    {
      hide RowOf, Segments, WalkableOf, Stoi, Onto;
      row := [];
      var pos, x := 0, 0;
      assert line[0..] == line;
      RowStart(line, z);
      while true
        invariant pos <= |line| && x == |row|
        invariant RowOf(Segments(line, ',')) == Onto(row, RowOf(Segments(line[pos..], ',')))
        invariant walkablePosition == old(walkablePosition) + WalkableOf(row, 0, z)
        decreases |line| - pos
      {
        var more, cell, next := GetLine(line, pos, ',');
        if !more {
          break;
        }
        RowStep(row, cell, Segments(line[next..], ','));
        pos := next;
        var value := Stoi(cell);
        if value.None? {
          return row, false;
        }
        WalkableAppend(row, value.value, 0, z);
        row := row + [value.value];
        if value.value == 1 {
          walkablePosition := walkablePosition + [(x, z)];
        }
        x := x + 1;
      }
      RowEnd(row);
      ok := true;
    }

    predicate IsWalkable(x: int, z: int): (walkable: bool)
      reads this
      ensures walkable == Walkable(walkableMap, x, z)
    {
      if x < 0 || z < 0 || z >= |walkableMap| || x >= |walkableMap[z]| then false else walkableMap[z][x] == 1
    }
  }

  // A load that has taken (map0, index0) to (map, index) with rest to come.
  ghost predicate Appended(l: Load, map0: seq<Row>, index0: seq<Cell>, map1: seq<Row>, index1: seq<Cell>, rest: Load) {
    && map0 + l.rows == map1 + rest.rows && index0 + l.index == index1 + rest.index
    && l.partial == rest.partial && l.complete == rest.complete
  }

  lemma {:induction false} AppendedStart(l: Load, map0: seq<Row>, index0: seq<Cell>)
    ensures Appended(l, map0, index0, map0, index0, l)
  {
  }

  lemma {:induction false} AppendedStep(l: Load, map0: seq<Row>, index0: seq<Cell>, map1: seq<Row>, index1: seq<Cell>,
                     line: string, lines: seq<string>, z: nat)
    requires Appended(l, map0, index0, map1, index1, LoadLines([line] + lines, z))
    ensures var (row, ok) := RowOf(Segments(line, ','));
            if ok then Appended(l, map0, index0, map1 + [row], index1 + WalkableOf(row, 0, z), LoadLines(lines, z + 1))
            else map0 + l.rows == map1 && index0 + l.index == index1 + WalkableOf(row, 0, z) && !l.complete
  {
    hide RowOf, Segments, WalkableOf;
    assert ([line] + lines)[1..] == lines;
    var (row, ok) := RowOf(Segments(line, ','));
    var rest := LoadLines(lines, z + 1);
    assert map1 + ([row] + rest.rows) == map1 + [row] + rest.rows;
    assert index1 + (WalkableOf(row, 0, z) + rest.index) == index1 + WalkableOf(row, 0, z) + rest.index;
    assert map1 + [] == map1;
  }

  lemma {:induction false} AppendedEnd(l: Load, map0: seq<Row>, index0: seq<Cell>, map1: seq<Row>, index1: seq<Cell>,
      z: nat)
    requires Appended(l, map0, index0, map1, index1, LoadLines([], z))
    ensures map0 + l.rows == map1 && index0 + l.index == index1 && l.complete
  {
  }

  // The numbers read so far, in front of the rest of a row.
  function Onto(row: Row, rest: (Row, bool)): (Row, bool) {
    (row + rest.0, rest.1)
  }

  lemma {:induction false} RowStart(line: string, z: int)
    ensures RowOf(Segments(line, ',')) == Onto([], RowOf(Segments(line, ',')))
    ensures WalkableOf([], 0, z) == []
  {
    var row := RowOf(Segments(line, ',')).0;
    assert [] + row == row;
  }

  lemma {:induction false} RowStep(row: Row, cell: string, cells: seq<string>)
    ensures Onto(row, RowOf([cell] + cells)) ==
            match Stoi(cell)
            case None => (row, false)
            case Some(v) => Onto(row + [v], RowOf(cells))
  {
    hide Stoi;
    assert ([cell] + cells)[1..] == cells && row + [] == row;
    if Stoi(cell).Some? {
      assert row + ([Stoi(cell).value] + RowOf(cells).0) == row + [Stoi(cell).value] + RowOf(cells).0;
    }
  }

  lemma {:induction false} RowEnd(row: Row)
    ensures Onto(row, RowOf([])) == (row, true)
  {
    assert row + [] == row;
  }

  method GetLine(text: string, pos: nat, d: char) returns (more: bool, line: string, next: nat)
    requires pos <= |text|
    ensures more <==> pos < |text|
    ensures !more ==> Segments(text[pos..], d) == []
    ensures more ==> pos < next <= |text| && Segments(text[pos..], d) == [line] + Segments(text[next..], d)
  {
    if pos == |text| {
      return false, [], pos;
    }
    var end := pos;
    while end < |text| && text[end] != d
      invariant pos <= end <= |text|
      invariant d !in text[pos..end]
    {
      assert text[pos..end + 1] == text[pos..end] + [text[end]];
      end := end + 1;
    }
    line := text[pos..end];
    more := true;
    if end == |text| {
      next := end;
      assert text[pos..] == line;
      SegmentsLast(line, d);
    } else {
      next := end + 1;
      assert text[pos..] == line + [d] + text[next..];
      SegmentsCons(line, d, text[next..]);
    }
  }

  lemma {:induction false} WalkableAppend(row: Row, v: I32, x: int, z: int)
    ensures WalkableOf(row + [v], x, z) == WalkableOf(row, x, z) + if v == 1 then [(x + |row|, z)] else []
  {
    if row == [] {
      assert [v][1..] == [];
    } else {
      WalkableAppend(row[1..], v, x + 1, z);
      assert (row + [v])[1..] == row[1..] + [v];
      var head := if row[0] == 1 then [(x, z)] else [];
      assert WalkableOf(row, x, z) == head + WalkableOf(row[1..], x + 1, z);
      assert WalkableOf(row + [v], x, z) == head + WalkableOf(row[1..] + [v], x + 1, z);
    }
  }

  // ------------------------------------------------------------ faithful load

  // A cell that stoi takes: a number with any white space before it and
  // anything but a delimiter after it.
  predicate IsCell(c: NumberText) {
    && c.Split() && c.digits != [] && -2147483648 <= c.Value() <= 2147483647
    && ',' !in c.Text() && '\n' !in c.Text()
  }

  type NumberCell = c: NumberText | IsCell(c) witness NumberText("", "", "0", "")

  function ValueOf(c: NumberCell): (v: I32)
    ensures v == c.Value()
  {
    c.Value()
  }

  function Numbers(cells: seq<NumberCell>): Row {
    seq(|cells|, x requires 0 <= x < |cells| => ValueOf(cells[x]))
  }

  // Cells with a comma behind each, a row, and rows with a newline behind each.
  function CellsText(cells: seq<NumberCell>): string {
    if cells == [] then "" else cells[0].Text() + "," + CellsText(cells[1..])
  }

  function RowText(cells: seq<NumberCell>): string {
    if cells == [] then "" else CellsText(cells[..|cells| - 1]) + cells[|cells| - 1].Text()
  }

  function GridText(grid: seq<seq<NumberCell>>): string {
    if grid == [] then "" else RowText(grid[0]) + "\n" + GridText(grid[1..])
  }

  function Grid(grid: seq<seq<NumberCell>>): seq<Row> {
    seq(|grid|, z requires 0 <= z < |grid| => Numbers(grid[z]))
  }

  lemma {:induction false} CellOk(c: NumberCell)
    ensures Stoi(c.Text()) == Some(ValueOf(c)) && c.Text() != [] && ',' !in c.Text() && '\n' !in c.Text()
  {
    StoiExactly(c);
    assert |c.Text()| >= |c.digits|;
  }

  lemma {:induction false} RowOfCells(cells: seq<NumberCell>, s: string)
    ensures RowOf(Segments(CellsText(cells) + s, ',')) ==
            (Numbers(cells) + RowOf(Segments(s, ',')).0, RowOf(Segments(s, ',')).1)
    ensures '\n' !in CellsText(cells)
  {
    hide NumberText.Text, RowOf, Stoi, Segments, IsCell, ValueOf, Numbers;
    NumbersFirst(cells);
    var rest := RowOf(Segments(s, ',')).0;
    if cells == [] {
      assert CellsText(cells) + s == s && [] + rest == rest;
    } else {
      var c, tail := cells[0], cells[1..];
      CellOk(c);
      RowOfCells(tail, s);
      assert CellsText(cells) + s == c.Text() + [','] + (CellsText(tail) + s);
      RowOfFirst(c.Text(), ValueOf(c), CellsText(tail) + s);
      assert [ValueOf(c)] + (Numbers(tail) + rest) == [ValueOf(c)] + Numbers(tail) + rest;
    }
  }

  lemma {:induction false} NumbersFirst(cells: seq<NumberCell>)
    ensures Numbers(cells) == if cells == [] then [] else [ValueOf(cells[0])] + Numbers(cells[1..])
    ensures cells != [] ==> Numbers(cells) == Numbers(cells[..|cells| - 1]) + [ValueOf(cells[|cells| - 1])]
  {
    hide ValueOf, IsCell;
  }

  lemma {:induction false} RowOfFirst(cell: string, v: I32, s: string)
    requires ',' !in cell && Stoi(cell) == Some(v)
    ensures RowOf(Segments(cell + [','] + s, ',')) == ([v] + RowOf(Segments(s, ',')).0, RowOf(Segments(s, ',')).1)
  {
    hide Stoi, Segments;
    SegmentsCons(cell, ',', s);
    RowOfCons(cell, Segments(s, ','));
  }

  lemma {:induction false} RowOfText(cells: seq<NumberCell>)
    ensures RowOf(Segments(RowText(cells), ',')) == (Numbers(cells), true)
    ensures '\n' !in RowText(cells)
  {
    NumbersFirst(cells);
    if cells != [] {
      hide NumberText.Text, Stoi, Segments, IsCell, ValueOf, Numbers, CellsText;
      var init, c := cells[..|cells| - 1], cells[|cells| - 1];
      CellOk(c);
      RowOfCells(init, c.Text());
      SegmentsLast(c.Text(), ',');
      RowOfCons(c.Text(), []);
      assert [c.Text()] + [] == [c.Text()] && [ValueOf(c)] + [] == [ValueOf(c)];
      assert RowOf([c.Text()]) == ([ValueOf(c)], true) by { assert RowOf([]) == ([], true); }
    }
  }

  lemma {:induction false} RowOfCons(cell: string, cells: seq<string>)
    requires Stoi(cell).Some?
    ensures RowOf([cell] + cells) == ([Stoi(cell).value] + RowOf(cells).0, RowOf(cells).1)
  {
    hide Stoi;
    assert ([cell] + cells)[1..] == cells;
  }

  // A grid in front of more text.
  lemma {:induction false} LoadOfGrid(grid: seq<seq<NumberCell>>, more: string, z: nat)
    ensures var l, rest := LoadLines(Segments(GridText(grid) + more, '\n'), z),
                           LoadLines(Segments(more, '\n'), z + |grid|);
            l.rows == Grid(grid) + rest.rows && l.partial == rest.partial && l.complete == rest.complete
  {
    hide RowText, Segments, RowOf, Numbers, LoadLines, Grid;
    GridFirst(grid);
    var rest := LoadLines(Segments(more, '\n'), z + |grid|).rows;
    if grid == [] {
      assert GridText(grid) + more == more && [] + rest == rest;
    } else {
      var row, tail := Numbers(grid[0]), GridText(grid[1..]) + more;
      RowOfText(grid[0]);
      LoadOfGrid(grid[1..], more, z + 1);
      assert GridText(grid) + more == RowText(grid[0]) + ['\n'] + tail;
      SegmentsCons(RowText(grid[0]), '\n', tail);
      LoadOfFirst(RowText(grid[0]), row, Segments(tail, '\n'), z);
      assert [row] + (Grid(grid[1..]) + rest) == [row] + Grid(grid[1..]) + rest;
    }
  }

  lemma {:induction false} GridFirst(grid: seq<seq<NumberCell>>)
    ensures Grid(grid) == if grid == [] then [] else [Numbers(grid[0])] + Grid(grid[1..])
  {
    hide Numbers;
  }

  lemma {:induction false} LoadOfFirst(line: string, row: Row, lines: seq<string>, z: nat)
    requires RowOf(Segments(line, ',')) == (row, true)
    ensures var l, rest := LoadLines([line] + lines, z), LoadLines(lines, z + 1);
            l.rows == [row] + rest.rows && l.partial == rest.partial && l.complete == rest.complete
  {
    hide RowOf, Segments;
    assert ([line] + lines)[1..] == lines;
  }

  // The cells that hold a 1, row by row.
  ghost predicate ListsOnes(index: seq<Cell>, rows: seq<Row>) {
    && (forall i, j :: 0 <= i < j < |index| ==>
          index[i].1 < index[j].1 || (index[i].1 == index[j].1 && index[i].0 < index[j].0))
    && (forall x: int, z: int :: (x, z) in index <==> 0 <= z < |rows| && 0 <= x < |rows[z]| && rows[z][x] == 1)
  }

  // Loading a grid of cells, however they are padded, gives their numbers cell
  // for cell and the index of the ones.
  lemma {:induction false} LoadOfText(grid: seq<seq<NumberCell>>)
    ensures var l := LoadText(GridText(grid));
            l.rows == Grid(grid) && l.complete && l.partial == [] && ListsOnes(l.index, Grid(grid))
  {
    hide Segments, GridText, Exact;
    LoadOfGrid(grid, "", 0);
    assert GridText(grid) + "" == GridText(grid);
    NoLines();
    assert Grid(grid) + [] == Grid(grid);
    LoadLists(GridText(grid));
  }

  lemma {:induction false} NoLines()
    ensures Segments("", '\n') == []
  {
  }

  // A line with a cell that stoi rejects: the rows before it are kept, and the
  // numbers before it in the line only in the index.
  lemma {:induction false} LoadOfBadCell(grid: seq<seq<NumberCell>>, cells: seq<NumberCell>, bad: NumberText,
      tail: string, more: string)
    requires bad.Split() && (bad.digits == [] || bad.Value() < -2147483648 || bad.Value() > 2147483647)
    requires ',' !in bad.Text() && '\n' !in bad.Text() && '\n' !in tail
    requires if tail == [] then bad.Text() != [] else tail[0] == ','
    requires more != [] ==> more[0] == '\n'
    ensures var l := LoadText(GridText(grid) + (CellsText(cells) + bad.Text() + tail + more));
            && l.rows == Grid(grid) && !l.complete && l.partial == Numbers(cells)
            && ListsOnes(l.index, Grid(grid) + [Numbers(cells)])
  {
    hide Segments, GridText, CellsText, RowOf, NumberText.Text;
    var line := CellsText(cells) + bad.Text() + tail;
    StoiExactly(bad);
    RowOfBad(cells, bad.Text(), tail);
    LoadOfGrid(grid, line + more, 0);
    FirstLine(line, more);
    assert Grid(grid) + [] == Grid(grid);
    LoadLists(GridText(grid) + (line + more));
  }

  lemma {:induction false} RowOfBad(cells: seq<NumberCell>, bad: string, tail: string)
    requires Stoi(bad).None? && ',' !in bad && '\n' !in bad && '\n' !in tail
    requires if tail == [] then bad != [] else tail[0] == ','
    ensures var line := CellsText(cells) + bad + tail;
            RowOf(Segments(line, ',')) == (Numbers(cells), false) && line != [] && '\n' !in line
  {
    hide Stoi, Segments, CellsText;
    RowOfCells(cells, bad + tail);
    assert CellsText(cells) + bad + tail == CellsText(cells) + (bad + tail);
    if tail == [] {
      assert bad + tail == bad;
      SegmentsLast(bad, ',');
    } else {
      assert bad + tail == bad + [','] + tail[1..];
      SegmentsCons(bad, ',', tail[1..]);
    }
    assert Numbers(cells) + [] == Numbers(cells);
  }

  lemma {:induction false} FirstLine(line: string, more: string)
    requires line != [] && '\n' !in line && (more != [] ==> more[0] == '\n')
    ensures Segments(line + more, '\n') != [] && Segments(line + more, '\n')[0] == line
  {
    hide Segments;
    if more == [] {
      assert line + more == line;
      SegmentsLast(line, '\n');
    } else {
      assert line + more == line + ['\n'] + more[1..];
      SegmentsCons(line, '\n', more[1..]);
    }
  }

  // Whatever a load appends, its index entries are the ones of its rows and of
  // the row it broke off in.
  lemma {:induction false} LoadLists(text: string)
    ensures var l := LoadText(text);
            ListsOnes(l.index, if l.complete then l.rows else l.rows + [l.partial])
  {
    hide LoadLines, Segments;
    var l := LoadText(text);
    var rows := if l.complete then l.rows else l.rows + [l.partial];
    IndexOfLoad(Segments(text, '\n'), 0);
    NoCells(|l.rows|);
    assert IndexFrom(l.rows, 0) + [] == IndexFrom(l.rows, 0);
    IndexOfMore(l.rows, l.partial, 0);
    IndexLists(rows);
  }

  lemma {:induction false} IndexLists(rows: seq<Row>)
    ensures ListsOnes(IndexFrom(rows, 0), rows)
  {
    hide IndexFrom;
    IndexFromExact(rows, 0);
    forall x: int, z: int
      ensures (x, z) in IndexFrom(rows, 0) <==> 0 <= z < |rows| && 0 <= x < |rows[z]| && rows[z][x] == 1
    {
      assert (x, z) in IndexFrom(rows, 0) <==> Walkable(rows, (x, z).0, (x, z).1 - 0);
    }
  }

  lemma {:induction false} IndexOfMore(rows: seq<Row>, row: Row, z: int)
    ensures IndexFrom(rows + [row], z) == IndexFrom(rows, z) + WalkableOf(row, 0, z + |rows|)
  {
    hide WalkableOf;
    if rows == [] {
      assert (rows + [row])[1..] == [];
      assert IndexFrom([], z) == [];
    } else {
      assert (rows + [row])[1..] == rows[1..] + [row];
      IndexOfMore(rows[1..], row, z + 1);
    }
  }

  // -------------------------------------------------------------- exact index

  predicate Before(p: Cell, q: Cell) {
    p.1 < q.1 || (p.1 == q.1 && p.0 < q.0)
  }

  predicate Increasing(index: seq<Cell>) {
    forall i, j :: 0 <= i < j < |index| ==> Before(index[i], index[j])
  }

  // Exactly the walkable cells, each once, row by row.
  ghost predicate Exact(rows: seq<Row>, index: seq<Cell>) {
    Increasing(index) && forall x, z :: (x, z) in index <==> Walkable(rows, x, z)
  }

  function IndexFrom(rows: seq<Row>, z: int): seq<Cell> {
    if rows == [] then [] else WalkableOf(rows[0], 0, z) + IndexFrom(rows[1..], z + 1)
  }

  lemma {:induction false} WalkableOfExact(row: Row, x: int, z: int)
    ensures Increasing(WalkableOf(row, x, z))
    ensures forall p :: p in WalkableOf(row, x, z) <==> p.1 == z && x <= p.0 < x + |row| && row[p.0 - x] == 1
  {
    if row != [] {
      WalkableOfExact(row[1..], x + 1, z);
      forall p: Cell ensures p in WalkableOf(row, x, z) <==> p.1 == z && x <= p.0 < x + |row| && row[p.0 - x] == 1 {
        assert p in WalkableOf(row[1..], x + 1, z)
               <==> p.1 == z && x + 1 <= p.0 < x + |row| && row[1..][p.0 - x - 1] == 1;
      }
      JoinIncreasing(if row[0] == 1 then [(x, z)] else [], WalkableOf(row[1..], x + 1, z));
    }
  }

  lemma {:induction false} JoinIncreasing(a: seq<Cell>, b: seq<Cell>)
    requires Increasing(a) && Increasing(b) && forall p, q | p in a && q in b :: Before(p, q)
    ensures Increasing(a + b)
  {
    forall i, j | 0 <= i < j < |a + b| ensures Before((a + b)[i], (a + b)[j]) {
      if i < |a| <= j {
        assert a[i] in a && b[j - |a|] in b;
      }
    }
  }

  lemma {:induction false} IndexFromExact(rows: seq<Row>, z: int)
    ensures Increasing(IndexFrom(rows, z))
    ensures forall p :: p in IndexFrom(rows, z) <==> Walkable(rows, p.0, p.1 - z)
  {
    if rows != [] {
      var a, b := WalkableOf(rows[0], 0, z), IndexFrom(rows[1..], z + 1);
      WalkableOfExact(rows[0], 0, z);
      IndexFromExact(rows[1..], z + 1);
      forall p: Cell ensures p in a + b <==> Walkable(rows, p.0, p.1 - z) {
        assert p in b <==> Walkable(rows[1..], p.0, p.1 - z - 1);
      }
      JoinIncreasing(a, b);
    }
  }

  lemma {:induction false} NoCells(z: int)
    ensures WalkableOf([], 0, z) == []
  {
  }

  lemma {:induction false} IndexOfLoad(lines: seq<string>, z: nat)
    ensures var l := LoadLines(lines, z);
            && l.index == IndexFrom(l.rows, z) + WalkableOf(l.partial, 0, z + |l.rows|)
            && (l.complete ==> l.partial == [])
  {
    hide RowOf, WalkableOf, Segments;
    if lines != [] {
      IndexOfLoad(lines[1..], z + 1);
      var (row, ok) := RowOf(Segments(lines[0], ','));
      var l := LoadLines(lines[1..], z + 1);
      if ok {
        assert ([row] + l.rows)[1..] == l.rows;
      } else {
        assert [] + WalkableOf(row, 0, z) == WalkableOf(row, 0, z);
      }
    } else {
      NoCells(z);
    }
  }

  // A load into an exact map and index leaves them exact exactly when the map
  // was empty or the text has no walkable cell, and no walkable cell came
  // before a cell that stoi rejected in its row.
  lemma {:induction false} LoadKeepsExact(rows: seq<Row>, index: seq<Cell>, text: string)
    requires Exact(rows, index)
    ensures var l := LoadText(text);
            Exact(rows + l.rows, index + l.index)
            <==> (rows == [] || forall x, z :: !Walkable(l.rows, x, z)) && 1 !in l.partial
  {
    hide LoadShape, Exact, Walkable, LoadText;
    var l := LoadText(text);
    Shape(text);
    if (rows == [] || forall x, z :: !Walkable(l.rows, x, z)) && 1 !in l.partial {
      GoodLoad(rows, index, l);
    } else {
      BadLoad(rows, index, l);
    }
  }

  ghost predicate LoadShape(l: Load) {
    && l.index == IndexFrom(l.rows, 0) + WalkableOf(l.partial, 0, |l.rows|)
    && Increasing(IndexFrom(l.rows, 0))
    && (forall p :: p in IndexFrom(l.rows, 0) <==> Walkable(l.rows, p.0, p.1 - 0))
    && (forall p :: p in WalkableOf(l.partial, 0, |l.rows|)
          <==> p.1 == |l.rows| && 0 <= p.0 < |l.partial| && l.partial[p.0] == 1)
  }

  lemma {:induction false} Shape(text: string)
    ensures LoadShape(LoadText(text))
  {
    var l := LoadText(text);
    IndexOfLoad(Segments(text, '\n'), 0);
    IndexFromExact(l.rows, 0);
    WalkableOfExact(l.partial, 0, |l.rows|);
  }

  lemma {:induction false} Head(index: seq<Cell>)
    ensures index == [] || exists p :: p in index
  {
    if index != [] {
      assert index[0] in index;
    }
  }

  lemma {:induction false} Empty(index: seq<Cell>)
    requires forall p :: p !in index
    ensures index == []
  {
    Head(index);
  }

  lemma {:induction false} GoodLoad(rows: seq<Row>, index: seq<Cell>, l: Load)
    requires Exact(rows, index) && LoadShape(l)
    requires (rows == [] || forall x, z :: !Walkable(l.rows, x, z)) && 1 !in l.partial
    ensures Exact(rows + l.rows, index + l.index)
  {
    Empty(WalkableOf(l.partial, 0, |l.rows|));
    assert l.index == IndexFrom(l.rows, 0);
    if rows == [] {
      forall p: Cell ensures p !in index { assert !Walkable(rows, p.0, p.1); }
      Empty(index);
      assert index + l.index == l.index && rows + l.rows == l.rows;
    } else {
      Empty(l.index);
      assert index + l.index == index;
      forall x, z ensures Walkable(rows + l.rows, x, z) <==> Walkable(rows, x, z) {
        assert !Walkable(l.rows, x, z - |rows|);
      }
    }
  }

  lemma {:induction false} BadLoad(rows: seq<Row>, index: seq<Cell>, l: Load)
    requires Exact(rows, index) && LoadShape(l)
    requires (rows != [] && exists x, z :: Walkable(l.rows, x, z)) || 1 in l.partial
    ensures !Exact(rows + l.rows, index + l.index)
  {
    var n := |l.rows|;
    if 1 in l.partial {
      var x :| 0 <= x < |l.partial| && l.partial[x] == 1;
      assert (x, n) in WalkableOf(l.partial, 0, n) && (x, n) in index + l.index;
      if rows == [] {
        assert !Walkable(rows + l.rows, x, n);
      } else {
        FirstEntry(rows, index, l);
      }
    } else {
      var x, z :| Walkable(l.rows, x, z);
      assert (x, z) in IndexFrom(l.rows, 0);
      FirstEntry(rows, index, l);
    }
  }

  // The first entry of a second load is one row too high, or already there.
  lemma {:induction false} FirstEntry(rows: seq<Row>, index: seq<Cell>, l: Load)
    requires Exact(rows, index) && LoadShape(l) && rows != [] && l.index != []
    ensures !Exact(rows + l.rows, index + l.index)
  {
    var p := l.index[0];
    var all, n := index + l.index, |index|;
    assert all[n] == p && p in all;
    NothingAbove(l, |rows|);
    if !Walkable(rows + l.rows, p.0, p.1) {
      assert (p.0, p.1) in all;
    } else {
      assert Walkable(rows, p.0, p.1) && (p.0, p.1) in index;
      var i :| 0 <= i < n && index[i] == p;
      assert all[i] == all[n] && !Before(all[i], all[n]);
    }
  }

  lemma {:induction false} NothingAbove(l: Load, n: nat)
    requires LoadShape(l) && l.index != [] && n > 0
    ensures !Walkable(l.rows, l.index[0].0, l.index[0].1 - n)
  {
    var a, p := IndexFrom(l.rows, 0), l.index[0];
    var q := (p.0, p.1 - n);
    assert a != [] ==> a[0] == p;
    assert forall i :: 0 <= i < |a| ==> a[i] == a[0] || Before(a[0], a[i]);
    assert q !in a;
    assert Walkable(l.rows, q.0, q.1 - 0) ==> q in a;
  }

  // Every Room constructor loads the map again (Session/Room.cpp:8-11).
  function Repeat<T>(s: seq<T>, k: nat): seq<T> {
    if k == 0 then [] else Repeat(s, k - 1) + s
  }

  lemma {:induction false} RepeatSteps<T>(s: seq<T>, k: nat)
    ensures Repeat(s, 0) == [] && Repeat(s, 1) == s
    ensures k >= 2 ==> Repeat(s, k) == Repeat(s, k - 2) + s + s
  {
    assert Repeat(s, 1) == [] + s;
  }

  lemma {:induction false} EmptyExact()
    ensures Exact([], [])
  {
  }

  // An index without entries is one of a text without walkable cells.
  lemma {:induction false} NothingToIndex(text: string)
    ensures var l := LoadText(text);
            l.index == [] <==> 1 !in l.partial && forall x, z :: !Walkable(l.rows, x, z)
  {
    hide WalkableOf, IndexFrom, Walkable;
    var l := LoadText(text);
    IndexOfLoad(Segments(text, '\n'), 0);
    NoRowCells(l.partial, |l.rows|);
    NoGridCells(l.rows);
  }

  lemma {:induction false} NoRowCells(row: Row, z: int)
    ensures WalkableOf(row, 0, z) == [] <==> 1 !in row
  {
    WalkableOfExact(row, 0, z);
    Head(WalkableOf(row, 0, z));
    forall x | 0 <= x < |row| ensures row[x] == 1 <==> (x, z) in WalkableOf(row, 0, z) {
    }
  }

  lemma {:induction false} NoGridCells(rows: seq<Row>)
    ensures IndexFrom(rows, 0) == [] <==> forall x, z :: !Walkable(rows, x, z)
  {
    IndexFromExact(rows, 0);
    Head(IndexFrom(rows, 0));
    forall x, z ensures Walkable(rows, x, z) <==> (x, z) in IndexFrom(rows, 0) {
      assert (x, z) in IndexFrom(rows, 0) <==> Walkable(rows, x, z - 0);
    }
  }

  // After k loads of one file the index is exact exactly when k is 0, or no
  // walkable cell came before a rejected one in its row and either k is 1 or
  // nothing is walkable.
  lemma {:induction false} Reloads(text: string, k: nat)
    ensures var l := LoadText(text);
            Exact(Repeat(l.rows, k), Repeat(l.index, k))
            <==> k == 0 || (1 !in l.partial && (k == 1 || forall x, z :: !Walkable(l.rows, x, z)))
  {
    hide Repeat, LoadText, Exact, Increasing;
    var l := LoadText(text);
    RepeatSteps(l.rows, k);
    RepeatSteps(l.index, k);
    EmptyExact();
    LoadKeepsExact([], [], text);
    assert [] + l.rows == l.rows && [] + l.index == l.index;
    NothingToIndex(text);
    if l.index == [] {
      NothingRepeated(l.rows, l.index, k);
    } else if k >= 2 {
      Doubled(Repeat(l.index, k - 2), l.index);
      NotIncreasing(Repeat(l.rows, k), Repeat(l.index, k));
    }
  }

  // One walkable cell, loaded twice.
  lemma {:induction false} ReloadExample()
    ensures LoadText("1\n") == Load([[1]], [(0, 0)], [], true)
    ensures Exact(Repeat([[1]], 1), Repeat([(0, 0)], 1)) && !Exact(Repeat([[1]], 2), Repeat([(0, 0)], 2))
  {
    hide Exact;
    LoadOfOne();
    Reloads("1\n", 1);
    Reloads("1\n", 2);
    assert Walkable([[1]], 0, 0);
  }

  lemma {:induction false} LoadOfOne()
    ensures LoadText("1\n") == Load([[1]], [(0, 0)], [], true)
  {
    var one := NumberText("", "", "1", "");
    OneCell(one);
    assert RowText([one]) == "1" && GridText([]) == "";
    assert [[one]][1..] == [] && GridText([[one]]) == "1\n";
    LoadOfText([[one]]);
    IndexOfLoad(Segments("1\n", '\n'), 0);
    OnlyOne(one);
  }

  lemma {:induction false} OneCell(one: NumberText)
    requires one == NumberText("", "", "1", "")
    ensures one.Text() == "1" && IsCell(one) && one.Value() == 1
  {
    assert "1"[..0] == [] && NumberOf("1") == 1;
    assert one.Text() == "1";
  }

  lemma {:induction false} OnlyOne(one: NumberCell)
    requires one.Value() == 1
    ensures Grid([[one]]) == [[1]] && IndexFrom([[1]], 0) == [(0, 0)]
  {
    hide IsCell;
    assert Numbers([one]) == [1];
    assert WalkableOf([], 1, 0) == [] && [1][1..] == [] && [[1]][1..] == [];
  }

  lemma {:induction false} NotIncreasing(rows: seq<Row>, index: seq<Cell>)
    requires !Increasing(index)
    ensures !Exact(rows, index)
  {
  }

  lemma {:induction false} Doubled(s: seq<Cell>, index: seq<Cell>)
    requires index != []
    ensures !Increasing(s + index + index)
  {
    var all := s + index + index;
    assert all[|s|] == all[|s| + |index|];
    assert !Before(all[|s|], all[|s| + |index|]);
  }

  lemma {:induction false} NothingRepeated(rows: seq<Row>, index: seq<Cell>, k: nat)
    requires index == [] && forall x, z :: !Walkable(rows, x, z)
    ensures Repeat(index, k) == [] && Exact(Repeat(rows, k), Repeat(index, k))
  {
    if k > 0 {
      NothingRepeated(rows, index, k - 1);
      var before := Repeat(rows, k - 1);
      forall x, z ensures !Walkable(before + rows, x, z) {
        assert Walkable(before, x, z) <==> (x, z) in Repeat(index, k - 1);
        assert !Walkable(rows, x, z - |before|);
      }
    }
  }
}
