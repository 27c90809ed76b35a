/** The line buffer of src/kernel/nano.c: a fixed grid of bytes, a length for each row, and
    loops that shift bytes and rows. Drawing and the save prompt are not part of it. */
module Nano {
  import opened Bytes
  import opened NanoText

  const COLUMNS := MAX_LEN + 1

  class Editor {
    const grid: array2<byte>
    const lengths: array<nat>
    var count: nat
    var line: nat
    var col: nat
    var top: nat

    /** Every row, used or not, has room for its terminator. */
    ghost predicate Shaped()
      reads lengths
    {
      && grid.Length0 == MAX_LINES && grid.Length1 == COLUMNS && lengths.Length == MAX_LINES
      && forall i :: 0 <= i < MAX_LINES ==> lengths[i] <= MAX_LEN
    }

    ghost function Row(i: nat): (l: Line)
      requires Shaped() && i < MAX_LINES
      reads grid, lengths
      ensures |l| == lengths[i] && forall c :: 0 <= c < |l| ==> l[c] == grid[i, c]
    {
      seq(lengths[i],
          c requires 0 <= c < MAX_LEN && grid.Length0 == MAX_LINES && grid.Length1 == COLUMNS reads grid => grid[i, c])
    }

    ghost function Rows(): (r: seq<Line>)
      requires Shaped()
      reads grid, lengths
      ensures |r| == MAX_LINES && forall i :: 0 <= i < MAX_LINES ==> r[i] == Row(i)
    {
      seq(MAX_LINES, i requires 0 <= i < MAX_LINES && Shaped() reads grid, lengths => Row(i))
    }

    ghost function View(): (t: Text)
      requires Shaped() && count <= MAX_LINES
      reads this, grid, lengths
    {
      Text(Rows()[..count], line, col, top)
    }

    ghost predicate Valid()
      reads this, grid, lengths
    {
      Shaped() && count <= MAX_LINES && Ok(View())
    }

    constructor ()
      ensures Valid() && View() == Text([[]], 0, 0, 0) && fresh(grid) && fresh(lengths)
    {
      grid := new byte[MAX_LINES, COLUMNS]((_, _) => 0);
      lengths := new nat[MAX_LINES](_ => 0);
      count := 1;
      line := 0;
      col := 0;
      top := 0;
    }

    // ----- rows -----

    ghost predicate Dims() { grid.Length0 == MAX_LINES && grid.Length1 == COLUMNS && lengths.Length == MAX_LINES }

    ghost predicate Holds(i: nat, l: Line)
      reads grid, lengths
    {
      Dims() && i < MAX_LINES && lengths[i] == |l| <= MAX_LEN && forall c :: 0 <= c < |l| ==> grid[i, c] == l[c]
    }

    /** Every row but i is as in `rows`. */
    ghost predicate Others(rows: seq<Line>, i: nat)
      reads grid, lengths
    {
      |rows| == MAX_LINES && forall j :: 0 <= j < MAX_LINES && j != i ==> Holds(j, rows[j])
    }

    lemma RowsHold(i: nat)
      requires Shaped() && i < MAX_LINES
      ensures Others(Rows(), i) && Holds(i, Rows()[i])
    {
    }

    lemma RowsAre(rows: seq<Line>, i: nat, l: Line)
      requires Others(rows, i) && Holds(i, l)
      ensures Shaped() && i < |rows| && Rows() == rows[i := l]
    {
      forall j | 0 <= j < MAX_LINES ensures lengths[j] <= MAX_LEN {
        assert j != i ==> Holds(j, rows[j]);
      }
      forall j | 0 <= j < MAX_LINES ensures Rows()[j] == rows[i := l][j] {
        assert j != i ==> Holds(j, rows[j]);
        assert Rows()[j] == Row(j);
      }
    }

    /** One byte of row i. */
    method Put(i: nat, c: nat, b: byte, ghost rows: seq<Line>)
      requires Dims() && i < MAX_LINES && c < COLUMNS && Others(rows, i)
      modifies grid
      ensures Others(rows, i) && grid[i, c] == b && forall k :: 0 <= k < COLUMNS && k != c ==>
              grid[i, k] == old(grid[i, k])
    {
      grid[i, c] := b;
    }

    method SetLength(i: nat, n: nat, ghost rows: seq<Line>)
      requires Dims() && i < MAX_LINES && Others(rows, i)
      modifies lengths
      ensures Others(rows, i) && lengths[i] == n
    {
      lengths[i] := n;
    }

    /** Copies a row with its terminator. */
    method MoveRow(to: nat, from: nat)
      requires Shaped() && to < MAX_LINES && from < MAX_LINES && to != from
      modifies grid, lengths
      ensures Shaped() && Rows() == old(Rows())[to := old(Rows())[from]]
    {
      hide Others;
      ghost var rows := Rows();
      RowsHold(to);
      RowsHold(from);
      SetLength(to, lengths[from], rows);
      for c := 0 to lengths[to] + 1
        invariant Others(rows, to) && Holds(from, rows[from]) && lengths[to] == |rows[from]|
        invariant forall k :: 0 <= k < c && k < |rows[from]| ==> grid[to, k] == rows[from][k]
      {
        Put(to, c, grid[from, c], rows);
        OtherHolds(rows, to, from);
      }
      RowsAre(rows, to, rows[from]);
    }

    lemma OtherHolds(rows: seq<Line>, i: nat, j: nat)
      requires Others(rows, i) && j < MAX_LINES && j != i
      ensures Holds(j, rows[j])
    {
    }

    /** Shifts the tail right and stores a byte. */
    method InsertByte(i: nat, at: nat, c: byte)
      requires Shaped() && i < MAX_LINES && at <= lengths[i] < MAX_LEN
      modifies grid, lengths
      ensures Shaped() && Rows() == old(Rows())[i := With(old(Rows())[i], at, c)]
    {
      hide Others;
      ghost var rows := Rows();
      ghost var l := rows[i];
      RowsHold(i);
      ShiftTail(i, at, l, rows);
      Put(i, at, c, rows);
      SetLength(i, lengths[i] + 1, rows);
      Put(i, lengths[i], 0, rows);
      RowsAre(rows, i, With(l, at, c));
    }

    method ShiftTail(i: nat, at: nat, ghost l: Line, ghost rows: seq<Line>)
      requires Holds(i, l) && Others(rows, i) && at <= |l| < MAX_LEN
      modifies grid
      ensures Others(rows, i) && (forall j :: 0 <= j < at ==> grid[i, j] == l[j])
      ensures forall j :: at < j <= |l| ==> grid[i, j] == l[j - 1]
    {
      hide Others;
      var k := lengths[i];
      while k > at
        invariant Others(rows, i) && at <= k <= |l|
        invariant forall j :: 0 <= j < k ==> grid[i, j] == l[j]
        invariant forall j :: k < j <= |l| ==> grid[i, j] == l[j - 1]
      {
        Put(i, k, grid[i, k - 1], rows);
        k := k - 1;
      }
    }

    /** Shifts the tail left over a byte. */
    method RemoveByte(i: nat, at: nat)
      requires Shaped() && i < MAX_LINES && at < lengths[i]
      modifies grid, lengths
      ensures Shaped() && Rows() == old(Rows())[i := Without(old(Rows())[i], at)]
    {
      hide Others;
      ghost var rows := Rows();
      ghost var l := rows[i];
      RowsHold(i);
      for k := at to lengths[i] - 1
        invariant Others(rows, i) && lengths[i] == |l|
        invariant forall j :: 0 <= j < |l| && !(at <= j < k) ==> grid[i, j] == l[j]
        invariant forall j :: at <= j < k ==> grid[i, j] == l[j + 1]
      {
        Put(i, k, grid[i, k + 1], rows);
      }
      SetLength(i, lengths[i] - 1, rows);
      Put(i, lengths[i], 0, rows);
      RowsAre(rows, i, Without(l, at));
    }

    /** Copies a row behind another. */
    method AppendRow(to: nat, from: nat)
      requires Shaped() && to < MAX_LINES && from < MAX_LINES && to != from && lengths[to] + lengths[from] <= MAX_LEN
      modifies grid, lengths
      ensures Shaped() && Rows() == old(Rows())[to := old(Rows())[to] + old(Rows())[from]]
    {
      hide Others;
      ghost var rows := Rows();
      RowsHold(to);
      RowsHold(from);
      var len := lengths[to];
      for c := 0 to lengths[from]
        invariant Others(rows, to) && Holds(from, rows[from]) && Holds(to, rows[to]) && lengths[to] == len
        invariant forall j :: len <= j < len + c ==> grid[to, j] == rows[from][j - len]
      {
        Put(to, len + c, grid[from, c], rows);
        OtherHolds(rows, to, from);
      }
      SetLength(to, len + lengths[from], rows);
      Put(to, lengths[to], 0, rows);
      RowsAre(rows, to, rows[to] + rows[from]);
    }

    /** Moves the tail of a row to the next one and cuts it off. */
    method CutRow(i: nat, at: nat)
      requires Shaped() && i + 1 < MAX_LINES && at <= lengths[i]
      modifies grid, lengths
      ensures Shaped() && Rows() == old(Rows())[i := old(Rows())[i][..at]][i + 1 := old(Rows())[i][at..]]
    {
      hide Others;
      ghost var rows := Rows();
      CopyTail(i, at);
      ghost var moved := Rows();
      RowsHold(i);
      Put(i, at, 0, moved);
      SetLength(i, at, moved);
      RowsAre(moved, i, rows[i][..at]);
    }

    method CopyTail(i: nat, at: nat)
      requires Shaped() && i + 1 < MAX_LINES && at <= lengths[i]
      modifies grid, lengths
      ensures Shaped() && Rows() == old(Rows())[i + 1 := old(Rows())[i][at..]]
    {
      hide Others;
      ghost var rows := Rows();
      RowsHold(i);
      RowsHold(i + 1);
      var tail := lengths[i] - at;
      for c := 0 to tail
        invariant Others(rows, i + 1) && Holds(i, rows[i])
        invariant forall j :: 0 <= j < c ==> grid[i + 1, j] == rows[i][at..][j]
      {
        Put(i + 1, c, grid[i, at + c], rows);
        OtherHolds(rows, i + 1, i);
      }
      Put(i + 1, tail, 0, rows);
      SetLength(i + 1, tail, rows);
      RowsAre(rows, i + 1, rows[i][at..]);
    }

    lemma LengthIs(i: nat)
      requires Shaped() && i < MAX_LINES
      ensures lengths[i] == |Rows()[i]| <= MAX_LEN
    {
    }

    // ----- keys -----

    /** ensure_cursor_visible */
    method EnsureVisible()
      requires Shaped() && count <= MAX_LINES
      modifies this`top
      ensures View() == Shown(old(View()))
    {
      if line < top {
        top := line;
      } else if line >= top + ROWS {
        top := line - ROWS + 1;
      }
    }

    /** What the editing methods need to know of a valid state. */
    lemma Bounds()
      requires Valid()
      ensures Shaped() && |Rows()| == MAX_LINES && line < count <= MAX_LINES
      ensures lengths[line] == |Rows()[line]| <= MAX_LEN && col <= lengths[line]
      ensures line > 0 ==> lengths[line - 1] == |Rows()[line - 1]| <= MAX_LEN
      ensures line + 1 < count ==> lengths[line + 1] == |Rows()[line + 1]| <= MAX_LEN
      ensures View() == Text(Rows()[..count], line, col, top) && Ok(View())
    {
    }

    method OnCharacter(c: byte)
      requires Valid()
      modifies this, grid, lengths
      ensures Valid() && View() == PressChar(old(View()), c)
    {
      hide Rows, Row, Ok, With;
      Bounds();
      PressOk(View(), Char(c));
      if !Accepted(c) {
        return;
      }
      if lengths[line] >= MAX_LEN {
        return;
      }
      InsertByte(line, col, c);
      col := col + 1;
      EnsureVisible();
    }

    method OnEnter()
      requires Valid()
      modifies this, grid, lengths
      ensures Valid() && View() == PressEnter(old(View()))
    {
      hide Rows, Row, Ok, Split;
      Bounds();
      PressOk(View(), Key.Enter);
      if count >= MAX_LINES {
        EnsureVisible();
        return;
      }
      ghost var rows := Rows();
      ShiftRowsDown();
      LengthIs(line);
      ghost var shifted := Rows();
      CutRow(line, col);
      SplitIs(rows, shifted, line, count, col);
      count := count + 1;
      line := line + 1;
      col := 0;
      EnsureVisible();
    }

    method ShiftRowsDown()
      requires Shaped() && line < count < MAX_LINES
      modifies grid, lengths
      ensures Shaped() && ShiftedDown(old(Rows()), Rows(), line + 1, count)
    {
      hide Rows, Row, Shaped;
      ghost var rows := Rows();
      var i := count;
      while i > line + 1
        invariant Shaped() && line + 1 <= i <= count && ShiftedDown(rows, Rows(), i, count)
      {
        MoveRow(i, i - 1);
        i := i - 1;
      }
    }

    /** Closes the gap that joining row i - 1 with row i leaves. */
    method DropRow(i: nat)
      requires Shaped() && i < count <= MAX_LINES
      modifies this`count, grid, lengths
      ensures Shaped() && count == old(count) - 1
      ensures Rows()[..count] == old(Rows())[..i] + old(Rows())[i + 1..old(count)]
    {
      hide Rows, Row, Shaped;
      ghost var rows := Rows();
      for k := i to count - 1
        invariant Shaped() && count == old(count) && ShiftedUp(rows, Rows(), i, k)
      {
        MoveRow(k, k + 1);
      }
      count := count - 1;
      DroppedIs(rows, Rows(), i, count);
    }

    method OnBackspace()
      requires Valid()
      modifies this, grid, lengths
      ensures Valid() && View() == PressBackspace(old(View()))
    {
      hide Rows, Row, Ok, Without, Joined;
      Bounds();
      PressOk(View(), Key.Backspace);
      if col > 0 {
        RemoveByte(line, col - 1);
        col := col - 1;
        EnsureVisible();
        return;
      }
      if line == 0 {
        return;
      }
      var previous, current := lengths[line - 1], lengths[line];
      if previous + current > MAX_LEN {
        return;
      }
      JoinWithNext(line - 1);
      line := line - 1;
      col := previous;
      EnsureVisible();
    }

    /** Copies row i + 1 behind row i and moves the rows below up. */
    method JoinWithNext(i: nat)
      requires Shaped() && i + 1 < count <= MAX_LINES && lengths[i] + lengths[i + 1] <= MAX_LEN
      modifies this`count, grid, lengths
      ensures Shaped() && count == old(count) - 1 && Rows()[..count] == Joined(old(Rows())[..old(count)], i)
    {
      hide Rows, Row;
      ghost var rows := Rows();
      AppendRow(i, i + 1);
      DropRow(i + 1);
      JoinedIs(rows, i, old(count));
    }

    method OnDelete()
      requires Valid()
      modifies this, grid, lengths
      ensures Valid() && View() == PressDelete(old(View()))
    {
      hide Rows, Row, Ok, Without, Joined;
      Bounds();
      PressOk(View(), Key.Delete);
      var len := lengths[line];
      if col < len {
        RemoveByte(line, col);
        EnsureVisible();
        return;
      }
      if line + 1 >= count {
        return;
      }
      if len + lengths[line + 1] > MAX_LEN {
        return;
      }
      JoinWithNext(line);
      EnsureVisible();
    }

    method OnLeft()
      requires Valid()
      modifies this`line, this`col, this`top
      ensures Valid() && View() == PressLeft(old(View()))
    {
      hide Rows, Row, Ok;
      Bounds();
      PressOk(View(), Key.Left);
      if col > 0 {
        col := col - 1;
      } else if line > 0 {
        line := line - 1;
        col := lengths[line];
      }
      EnsureVisible();
    }

    method OnRight()
      requires Valid()
      modifies this`line, this`col, this`top
      ensures Valid() && View() == PressRight(old(View()))
    {
      hide Rows, Row, Ok;
      Bounds();
      PressOk(View(), Key.Right);
      if col < lengths[line] {
        col := col + 1;
      } else if line + 1 < count {
        line := line + 1;
        col := 0;
      }
      EnsureVisible();
    }

    method OnUp()
      requires Valid()
      modifies this`line, this`col, this`top
      ensures Valid() && View() == PressUp(old(View()))
    {
      hide Rows, Row, Ok;
      Bounds();
      PressOk(View(), Key.Up);
      if line == 0 {
        return;
      }
      line := line - 1;
      if col > lengths[line] {
        col := lengths[line];
      }
      EnsureVisible();
    }

    method OnDown()
      requires Valid()
      modifies this`line, this`col, this`top
      ensures Valid() && View() == PressDown(old(View()))
    {
      hide Rows, Row, Ok;
      Bounds();
      PressOk(View(), Key.Down);
      if line + 1 >= count {
        return;
      }
      line := line + 1;
      if col > lengths[line] {
        col := lengths[line];
      }
      EnsureVisible();
    }

    method OnHomeOrEnd(end: bool)
      requires Valid()
      modifies this`col, this`top
      ensures Valid() && View() == Press(old(View()), if end then Key.End else Key.Home)
    {
      hide Rows, Row, Ok;
      Bounds();
      PressOk(View(), if end then Key.End else Key.Home);
      col := if end then lengths[line] else 0;
      EnsureVisible();
    }

    // ----- files -----

    method Reset()
      requires Shaped()
      modifies this, grid, lengths
      ensures Valid() && View() == Text([[]], 0, 0, 0)
    {
      for i := 0 to MAX_LINES
        invariant Shaped() && forall j :: 0 <= j < i ==> lengths[j] == 0
      {
        lengths[i] := 0;
        grid[i, 0] := 0;
      }
      count := 1;
      line := 0;
      col := 0;
      top := 0;
      assert Rows()[..1] == [[]];
    }

    /** buffer_load, on the bytes that fs_read gave (none for a new file). */
    method Load(raw: seq<byte>)
      requires Shaped()
      modifies this, grid, lengths
      ensures Valid() && View() == Text(Loaded(raw), 0, 0, 0)
    {
      hide Rows, Row, LinesOk, Parse;
      LoadedOk(raw);
      Reset();
      ResetShaped();
      if |raw| == 0 {
        NothingLoaded();
        return;
      }
      var row, at, done, open := ReadLines(raw);
      if at > 0 || row == 0 {
        CloseRow(row, at, done, open);
        row := row + 1;
      }
      count := row;
      LoadedIs(raw);
    }

    lemma ResetShaped()
      requires Valid()
      ensures Shaped()
    {
    }

    lemma LoadedIs(raw: seq<byte>)
      requires Shaped() && count <= MAX_LINES && Rows()[..count] == Loaded(raw) && LinesOk(Loaded(raw))
               && line == col == top == 0
      ensures Valid() && View() == Text(Loaded(raw), 0, 0, 0)
    {
    }

    /** The bytes of the row that is being read. */
    ghost predicate Reading(row: nat, at: nat, done: seq<Line>, open: Line)
      reads grid, lengths
    {
      && Shaped() && row < MAX_LINES && at == |open| <= MAX_LEN && done == Rows()[..row]
      && forall c :: 0 <= c < at ==> grid[row, c] == open[c]
    }

    /** The loop of buffer_load. */
    method ReadLines(raw: seq<byte>) returns (row: nat, at: nat, ghost done: seq<Line>, ghost open: Line)
      requires Shaped()
      modifies grid, lengths
      ensures Shaped() && row <= MAX_LINES && done == Rows()[..row]
      ensures if at > 0 || row == 0 then Reading(row, at, done, open) && Loaded(raw) == done + [open]
              else Loaded(raw) == done
    {
      hide Rows, Row;
      row, at, done, open := 0, 0, [], [];
      for i := 0 to |raw|
        invariant Reading(row, at, done, open) && |done| == row
        invariant Loaded(raw) == Parse(raw, i, done, open)
      {
        if raw[i] == NEWLINE {
          CloseRow(row, at, done, open);
          done := done + [open];
          row := row + 1;
          at := 0;
          open := [];
          if row >= MAX_LINES {
            return;
          }
        } else if at < MAX_LEN {
          StoreByte(row, at, raw[i], done, open);
          open := open + [raw[i]];
          at := at + 1;
        }
      }
    }

    method CloseRow(row: nat, at: nat, ghost done: seq<Line>, ghost open: Line)
      requires Reading(row, at, done, open)
      modifies grid, lengths
      ensures Shaped() && row < MAX_LINES && Rows()[..row + 1] == done + [open]
    {
      hide Others;
      ghost var rows := Rows();
      RowsHold(row);
      SetLength(row, at, rows);
      Put(row, at, 0, rows);
      RowsAre(rows, row, open);
    }

    method StoreByte(row: nat, at: nat, c: byte, ghost done: seq<Line>, ghost open: Line)
      requires Reading(row, at, done, open) && at < MAX_LEN
      modifies grid
      ensures Reading(row, at + 1, done, open + [c])
    {
      grid[row, at] := c;
      forall j | 0 <= j < row ensures Row(j) == done[j] {
      }
      assert Rows()[..row] == done;
    }

    lemma NothingLoaded()
      ensures Loaded([]) == [[]]
    {
    }

    /** The bytes that buffer_save writes. */
    method Serialize() returns (raw: seq<byte>)
      requires Valid()
      ensures raw == Serialized(View().lines) && |raw| <= MAX_LINES * COLUMNS
    {
      hide Rows, Row, Ok, LinesOk, Serialized;
      Bounds();
      ghost var lines := Rows()[..count];
      SavedFits(lines);
      raw := [];
      SerializedFrom(lines, 0);
      for i := 0 to count
        invariant Serialized(lines) == raw + Serialized(lines[i..])
      {
        SerializedFrom(lines, i);
        var l := CopyOut(i);
        Regroup(raw, l + [NEWLINE], Serialized(lines[i + 1..]));
        raw := raw + (l + [NEWLINE]);
      }
      SerializedFrom(lines, count);
    }

    lemma SavedFits(lines: seq<Line>)
      requires Valid() && lines == View().lines
      ensures |Serialized(lines)| <= MAX_LINES * COLUMNS
    {
      SerializedFits(lines);
    }

    method CopyOut(i: nat) returns (l: Line)
      requires Shaped() && i < MAX_LINES
      ensures l == Rows()[i]
    {
      l := [];
      for c := 0 to lengths[i]
        invariant |l| == c && forall k :: 0 <= k < c ==> l[k] == grid[i, k]
      {
        l := l + [grid[i, c]];
      }
    }
  }

  lemma SerializedFrom(lines: seq<Line>, i: nat)
    requires i <= |lines|
    ensures lines[0..] == lines && (i == |lines| ==> Serialized(lines[i..]) == [])
    ensures i < |lines| ==> Serialized(lines[i..]) == lines[i] + [NEWLINE] + Serialized(lines[i + 1..])
  {
    if i < |lines| {
      assert lines[i..][1..] == lines[i + 1..];
    }
  }

  // ----- shifting rows -----

  /** Rows i + 1 to n hold what rows i to n - 1 held. */
  ghost predicate ShiftedDown(rows: seq<Line>, r: seq<Line>, i: nat, n: nat) {
    && |r| == |rows| && n < |rows|
    && (forall j :: 0 <= j < |r| && !(i < j <= n) ==> r[j] == rows[j])
    && (forall j :: i < j <= n ==> r[j] == rows[j - 1])
  }

  ghost predicate ShiftedUp(rows: seq<Line>, r: seq<Line>, i: nat, n: nat) {
    && |r| == |rows| && n < |rows|
    && (forall j :: 0 <= j < |r| && !(i <= j < n) ==> r[j] == rows[j])
    && (forall j :: i <= j < n ==> r[j] == rows[j + 1])
  }

  lemma SplitIs(rows: seq<Line>, r: seq<Line>, i: nat, n: nat, col: nat)
    requires ShiftedDown(rows, r, i + 1, n) && i < n && col <= |rows[i]|
    ensures r[i := r[i][..col]][i + 1 := r[i][col..]][..n + 1] == Split(rows[..n], i, col)
  {
  }

  lemma DroppedIs(rows: seq<Line>, r: seq<Line>, i: nat, n: nat)
    requires ShiftedUp(rows, r, i, n) && i <= n
    ensures r[..n] == rows[..i] + rows[i + 1..n + 1]
  {
  }

  lemma JoinedIs(rows: seq<Line>, i: nat, n: nat)
    requires i + 1 < n <= |rows|
    ensures var r := rows[i := rows[i] + rows[i + 1]]; r[..i + 1] + r[i + 2..n] == Joined(rows[..n], i)
  {
  }
}
