/** matrix_task and the ghost filter of quantum/keyboard.c as they run: loops over rows, columns and a
    moving column mask, with the previous matrix updated in place. */
module MatrixScanner {
  import opened RowBits
  import opened Matrix

  class Scanner {
    const cols: nat
    /** matrix_previous */
    const previous: array<Row>
    /** What has been passed to action_exec. */
    var events: seq<KeyChange>

    ghost predicate Valid() {
      cols <= COLS_MAX
    }

    ghost function Model(): State
      reads this, previous
    {
      State(previous[..], events)
    }

    constructor (rows: nat, cols: nat)
      requires cols <= COLS_MAX
      ensures Valid() && this.cols == cols && previous.Length == rows && fresh(previous)
      ensures Consistent(Model(), cols)
    {
      this.cols := cols;
      previous := new Row[rows](_ => 0);
      events := [];
      new;
      AllUpIsConsistent(rows, cols);
      assert previous[..] == seq(rows, _ => 0);
    }

    /** get_real_keys: the pressed columns of the row that are mapped. */
    method GetRealKeys(p: Pass, row: nat, rowdata: Row) returns (out: Row)
      requires Valid()
      ensures forall c :: 0 <= c < COLS_MAX ==> (On(out, c) <==> c < cols && On(rowdata, c) && p.mapped((row, c)))
    {
      hide Mask, Hits, Single, With, On;
      out := 0;
      FirstMask();
      forall c | 0 <= c < COLS_MAX ensures !On(0, c) { NothingOn(c); }
      var mask: Row := 1;
      for col := 0 to cols
        invariant col < COLS_MAX ==> mask == Mask(col)
        invariant forall c :: 0 <= c < COLS_MAX ==> (On(out, c) <==> c < col && On(rowdata, c) && p.mapped((row, c)))
      {
        OnIsHit(rowdata, col);
        if p.mapped((row, col)) && Hits(rowdata, mask) {
          forall c | 0 <= c < COLS_MAX ensures On(With(out, mask), c) <==> On(out, c) || c == col {
            WithColumn(out, col, c);
          }
          out := With(out, mask);
        }
        mask := NextColumn(mask, col);
      }
    }

    /** has_ghost_in_row: the test is exactly the rectangle. */
    method HasGhostInRow(p: Pass, row: nat) returns (ghosted: bool)
      requires Valid() && Fits(|p.rows|, cols, p) && row < |p.rows|
      ensures ghosted == Rectangle(p, cols, row)
    {
      hide On, MoreThanOne;
      var rowdata := GetRealKeys(p, row, p.rows[row]);
      MoreThanOneIsTwo(rowdata);
      if !MoreThanOne(rowdata) {
        NoRectangle(p, cols, row, rowdata);
        return false;
      }
      for i := 0 to |p.rows|
        invariant forall k, c, d :: 0 <= k < i && k != row && 0 <= c < d < cols ==>
          !(Shared(p, row, k, c) && Shared(p, row, k, d))
      {
        var other := GetRealKeys(p, i, p.rows[i]);
        forall c | 0 <= c < COLS_MAX ensures On(other & rowdata, c) <==> On(other, c) && On(rowdata, c) {
          AndOn(other, rowdata, c);
        }
        MoreThanOneIsTwo(other & rowdata);
        if i != row && MoreThanOne(other & rowdata) {
          var c, d :| 0 <= c < d < COLS_MAX && On(other & rowdata, c) && On(other & rowdata, d);
          assert Shared(p, row, i, c) && Shared(p, row, i, d);
          return true;
        }
      }
      return false;
    }

    /** The loop over the columns of a changed row. */
    method EmitRow(p: Pass, row: nat)
      requires Valid() && Fits(previous.Length, cols, p) && row < |p.rows|
      modifies this`events
      ensures events == old(events) + if p.process then RowEvents(row, p.rows[row], previous[row], 0, cols) else []
    {
      hide Mask, Hits, RowEvents, RowChanges;
      var currentRow := p.rows[row];
      var rowChanges := RowChanges(currentRow, previous[row]);
      var colMask: Row := 1;
      FirstMask();
      var col := 0;
      while col < cols
        invariant 0 <= col <= cols && (col < COLS_MAX ==> colMask == Mask(col))
        invariant p.process ==> events + RowEvents(row, currentRow, previous[row], col, cols)
                                == old(events) + RowEvents(row, currentRow, previous[row], 0, cols)
        invariant !p.process ==> events == old(events)
      {
        EventsHead(row, currentRow, previous[row], col, cols);
        if Hits(rowChanges, colMask) {
          var keyPressed := Hits(currentRow, colMask);
          if p.process {
            events := events + [KeyChange(row, col, keyPressed)];
          }
        }
        colMask := NextColumn(colMask, col);
        col := col + 1;
      }
      EventsHead(row, currentRow, previous[row], cols, cols);
    }

    /** matrix_task once the matrix has been read; true if the matrix changed. */
    method MatrixTask(p: Pass) returns (changed: bool)
      requires Valid() && Fits(previous.Length, cols, p)
      modifies this`events, previous
      ensures changed <==> old(previous[..]) != p.rows
      ensures Model() == Scan(old(Model()), cols, p)
    {
      hide Rectangle, RowEvents, Changed;
      changed := false;
      var row := 0;
      while row < previous.Length && !changed
        invariant 0 <= row <= previous.Length && (!changed ==> previous[..row] == p.rows[..row])
        invariant changed ==> previous[..] != p.rows
        invariant Model() == old(Model())
      {
        ChangedIsDifferent(previous[row], p.rows[row]);
        changed := Changed(previous[row], p.rows[row]);
        row := row + 1;
      }
      if !changed {
        NothingToScan(Model(), cols, p, |p.rows|);
        return;
      }
      row := 0;
      while row < previous.Length
        invariant 0 <= row <= previous.Length
        invariant Model() == ScanRows(old(Model()), cols, p, row)
      {
        var rowChanged := Changed(p.rows[row], previous[row]);
        var ghosted := false;
        if rowChanged { ghosted := HasGhostInRow(p, row); }
        if rowChanged && !ghosted {
          EmitRow(p, row);
          previous[row] := p.rows[row];
        }
        row := row + 1;
      }
    }
  }

  /** `col_mask <<= 1`, which runs off the end after the last column. */
  method NextColumn(mask: Row, ghost col: nat) returns (next: Row)
    requires col < COLS_MAX && mask == Mask(col)
    ensures col + 1 < COLS_MAX ==> next == Mask(col + 1)
  {
    hide Mask;
    if col + 1 < COLS_MAX { NextMask(col); }
    next := mask << 1;
  }

  lemma OnIsHit(x: Row, c: nat)
    requires c < COLS_MAX
    ensures On(x, c) <==> Hits(x, Mask(c))
  {
  }

  lemma FirstMask()
    ensures Mask(0) == 1
  {
  }

  lemma AndOn(x: Row, y: Row, c: nat)
    requires c < COLS_MAX
    ensures On(x & y, c) <==> On(x, c) && On(y, c)
  {
    hide Mask, Hits, Single;
    MaskGrows(c, c);
    AndHits(x, y, Mask(c));
  }

  lemma NoRectangle(p: Pass, cols: nat, row: nat, rowdata: Row)
    requires row < |p.rows| && cols <= COLS_MAX
    requires forall c :: 0 <= c < COLS_MAX ==>
               (On(rowdata, c) <==> c < cols && On(p.rows[row], c) && p.mapped((row, c)))
    requires !exists c, d :: 0 <= c < d < COLS_MAX && On(rowdata, c) && On(rowdata, d)
    ensures !Rectangle(p, cols, row)
  {
    hide On;
  }

  lemma EventsHead(row: nat, current: Row, previous: Row, c: nat, cols: nat)
    requires c <= cols <= COLS_MAX
    ensures c == cols ==> RowEvents(row, current, previous, c, cols) == []
    ensures c < cols ==>
      RowEvents(row, current, previous, c, cols)
      == (if On(RowChanges(current, previous), c) then [KeyChange(row, c, On(current, c))] else [])
         + RowEvents(row, current, previous, c + 1, cols)
  {
  }

  lemma {:induction false} NothingToScan(s: State, cols: nat, p: Pass, n: nat)
    requires Fits(|s.previous|, cols, p) && n <= |p.rows| && s.previous == p.rows
    ensures ScanRows(s, cols, p, n) == s
    decreases n
  {
    hide Rectangle, RowEvents, Changed;
    if n > 0 {
      NothingToScan(s, cols, p, n - 1);
      ChangedIsDifferent(p.rows[n - 1], s.previous[n - 1]);
    }
  }
}
