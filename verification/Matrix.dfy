/** The matrix edge detector of quantum/keyboard.c on values: snapshots of the switch matrix become key
    events, rows that may hold ghosts are put off, and a hidden copy of the matrix is kept. */
module Matrix {
  import opened RowBits

  datatype KeyChange = KeyChange(row: nat, col: nat, pressed: bool)

  type Key = (nat, nat)

  /** One pass of the scanner: the matrix as read, which positions are mapped to keys on layer 0 (none
      if the hardware cannot ghost), and whether this side processes key presses. */
  datatype Pass = Pass(rows: seq<Row>, mapped: Key -> bool, process: bool)

  ghost predicate Fits(rows: nat, cols: nat, p: Pass) {
    |p.rows| == rows && cols <= COLS_MAX
  }

  // ---------------------------------------------------------------- ghosts

  /** Column `c` is pressed in both rows and mapped in both. */
  predicate Shared(p: Pass, r: nat, i: nat, c: nat)
    requires r < |p.rows| && i < |p.rows| && c < COLS_MAX
  {
    On(p.rows[r], c) && On(p.rows[i], c) && p.mapped((r, c)) && p.mapped((i, c))
  }

  /** Some other row and two columns make a rectangle with this row whose corners are all pressed and
      all mapped. */
  predicate Rectangle(p: Pass, cols: nat, r: nat)
    requires r < |p.rows| && cols <= COLS_MAX
  {
    exists i, c, d :: 0 <= i < |p.rows| && i != r && 0 <= c < d < cols && Shared(p, r, i, c) && Shared(p, r, i, d)
  }

  // ---------------------------------------------------------------- one pass

  /** `row_changes`: the columns in which two rows differ. */
  function RowChanges(x: Row, y: Row): Row {
    x ^ y
  }

  /** The events of one row from column `c` on. */
  function RowEvents(row: nat, current: Row, previous: Row, c: nat, cols: nat): seq<KeyChange>
    requires c <= cols <= COLS_MAX
    decreases cols - c
  {
    if c == cols then []
    else
      (if On(RowChanges(current, previous), c) then [KeyChange(row, c, On(current, c))] else [])
      + RowEvents(row, current, previous, c + 1, cols)
  }

  /** The hidden copy of the matrix, and the events passed to action_exec so far. */
  datatype State = State(previous: seq<Row>, events: seq<KeyChange>)

  /** Two rows differ in some bit. */
  predicate Changed(x: Row, y: Row) {
    RowChanges(x, y) != 0
  }

  lemma ChangedIsDifferent(x: Row, y: Row)
    ensures Changed(x, y) <==> x != y
  {
    XorTwice(x, y);
    if !Changed(x, y) { assert 0 ^ y == y; }
  }

  lemma XorTwice(x: Row, y: Row)
    ensures x ^ y ^ y == x && y ^ y == 0
  {
  }

  /** The body of the loop over the rows. */
  function ScanRow(s: State, cols: nat, p: Pass, r: nat): (t: State)
    requires Fits(|s.previous|, cols, p) && r < |p.rows|
    ensures |t.previous| == |s.previous|
  {
    if !Changed(p.rows[r], s.previous[r]) || Rectangle(p, cols, r) then s
    else
      State(s.previous[r := p.rows[r]],
            s.events + if p.process then RowEvents(r, p.rows[r], s.previous[r], 0, cols) else [])
  }

  /** The first `n` rows. */
  function ScanRows(s: State, cols: nat, p: Pass, n: nat): (t: State)
    requires Fits(|s.previous|, cols, p) && n <= |p.rows|
    ensures |t.previous| == |s.previous|
  {
    if n == 0 then s else ScanRow(ScanRows(s, cols, p, n - 1), cols, p, n - 1)
  }

  /** matrix_task */
  function Scan(s: State, cols: nat, p: Pass): (t: State)
    requires Fits(|s.previous|, cols, p)
    ensures |t.previous| == |s.previous|
  {
    ScanRows(s, cols, p, |p.rows|)
  }

  function Run(s: State, cols: nat, ps: seq<Pass>): (t: State)
    requires forall i :: 0 <= i < |ps| ==> Fits(|s.previous|, cols, ps[i])
    decreases |ps|
  {
    if ps == [] then s else Run(Scan(s, cols, ps[0]), cols, ps[1..])
  }

  // ---------------------------------------------------------------- replay

  /** The keys that are down for someone who starts with `down` and follows the events. */
  function Replay(down: set<Key>, es: seq<KeyChange>): set<Key> {
    if es == [] then down
    else
      var before := Replay(down, es[..|es| - 1]);
      var e := es[|es| - 1];
      if e.pressed then before + {(e.row, e.col)} else before - {(e.row, e.col)}
  }

  /** Every press is of a key that is up, and every release of one that is down. */
  predicate Alternates(down: set<Key>, es: seq<KeyChange>) {
    es == [] ||
    var init := es[..|es| - 1];
    var e := es[|es| - 1];
    Alternates(down, init) && (e.pressed <==> (e.row, e.col) !in Replay(down, init))
  }

  /** The keys that are down in a copy of the matrix. */
  function DownKeys(m: seq<Row>, cols: nat): set<Key>
    requires cols <= COLS_MAX
  {
    set r, c | 0 <= r < |m| && 0 <= c < cols && On(m[r], c) :: (r, c)
  }

  lemma ReplaySnoc(down: set<Key>, es: seq<KeyChange>, e: KeyChange)
    ensures Replay(down, es + [e])
         == if e.pressed then Replay(down, es) + {(e.row, e.col)} else Replay(down, es) - {(e.row, e.col)}
    ensures Alternates(down, es + [e]) <==> Alternates(down, es) && (e.pressed <==> (e.row, e.col) !in Replay(down, es))
  {
    assert (es + [e])[..|es|] == es;
  }

  lemma XorOn(x: Row, y: Row, c: nat)
    requires c < COLS_MAX
    ensures On(RowChanges(x, y), c) <==> !(On(x, c) <==> On(y, c))
  {
    hide Mask, Single, Hits;
    MaskGrows(c, c);
    XorBit(x, y, Mask(c));
  }

  /** The events of a row, replayed after others that left its keys as in the old copy, leave them as in
      the new one, alternate, and touch no other row. */
  lemma {:induction false} RowReplays(es: seq<KeyChange>, row: nat, current: Row, previous: Row, c: nat, cols: nat)
    requires c <= cols <= COLS_MAX && Alternates({}, es)
    requires forall d :: c <= d < cols ==> ((row, d) in Replay({}, es) <==> On(previous, d))
    ensures var es' := es + RowEvents(row, current, previous, c, cols);
      && Alternates({}, es')
      && (forall k :: k in Replay({}, es') <==>
            if k.0 == row && c <= k.1 < cols then On(current, k.1) else k in Replay({}, es))
    decreases cols - c
  {
    hide On, Replay, Alternates, RowChanges;
    if c == cols {
      assert es + [] == es;
    } else {
      XorOn(current, previous, c);
      var e := KeyChange(row, c, On(current, c));
      var es1 := if On(RowChanges(current, previous), c) then es + [e] else es;
      ReplaySnoc({}, es, e);
      RowReplays(es1, row, current, previous, c + 1, cols);
      assert es1 + RowEvents(row, current, previous, c + 1, cols) == es + RowEvents(row, current, previous, c, cols);
    }
  }

  /** The events so far, replayed from all keys up, are the hidden copy, and they alternate. */
  ghost predicate Consistent(s: State, cols: nat)
    requires cols <= COLS_MAX
  {
    Alternates({}, s.events) && Replay({}, s.events) == DownKeys(s.previous, cols)
  }

  lemma ScanRowKeeps(s: State, cols: nat, p: Pass, r: nat)
    requires Fits(|s.previous|, cols, p) && r < |p.rows| && p.process && Consistent(s, cols)
    ensures Consistent(ScanRow(s, cols, p, r), cols)
  {
    hide On, Replay, Alternates, Rectangle, RowEvents, Changed;
    var t := ScanRow(s, cols, p, r);
    if t != s {
      RowReplays(s.events, r, p.rows[r], s.previous[r], 0, cols);
      assert forall k :: k in Replay({}, t.events) <==> k in DownKeys(t.previous, cols);
    }
  }

  lemma {:induction false} ScanRowsKeep(s: State, cols: nat, p: Pass, n: nat)
    requires Fits(|s.previous|, cols, p) && n <= |p.rows| && p.process && Consistent(s, cols)
    ensures Consistent(ScanRows(s, cols, p, n), cols)
    decreases n
  {
    hide ScanRow, Consistent;
    if n > 0 {
      ScanRowsKeep(s, cols, p, n - 1);
      ScanRowKeeps(ScanRows(s, cols, p, n - 1), cols, p, n - 1);
    }
  }

  /** Over any sequence of snapshots, whatever rows ghosting holds back and however the keymap changes:
      replaying all events from all keys up gives the hidden copy, and each key's events strictly
      alternate between press and release, a press first. */
  lemma {:induction false} RunIsConsistent(s: State, cols: nat, ps: seq<Pass>)
    requires forall i :: 0 <= i < |ps| ==> Fits(|s.previous|, cols, ps[i]) && ps[i].process
    requires cols <= COLS_MAX && Consistent(s, cols)
    ensures Consistent(Run(s, cols, ps), cols)
    decreases |ps|
  {
    hide ScanRows, Consistent;
    if ps != [] {
      ScanRowsKeep(s, cols, ps[0], |ps[0].rows|);
      RunIsConsistent(Scan(s, cols, ps[0]), cols, ps[1..]);
    }
  }

  lemma AllUpIsConsistent(rows: nat, cols: nat)
    requires cols <= COLS_MAX
    ensures Consistent(State(seq(rows, _ => 0), []), cols)
  {
    var m: seq<Row> := seq(rows, _ => 0);
    forall r, c | 0 <= r < rows && 0 <= c < cols ensures !On(m[r], c) { NothingOn(c); }
  }

  lemma NothingOn(c: nat)
    requires c < COLS_MAX
    ensures !On(0, c)
  {
  }

  /** Row by row, the hidden copy becomes the snapshot except where a rectangle of real keys is
      pressed; there it stays. */
  lemma {:induction false} RowsAfterScan(s: State, cols: nat, p: Pass, n: nat, r: nat)
    requires Fits(|s.previous|, cols, p) && n <= |p.rows| && r < |p.rows|
    ensures ScanRows(s, cols, p, n).previous[r] == if r < n && !Rectangle(p, cols, r) then p.rows[r] else s.previous[r]
    decreases n
  {
    hide Rectangle, RowEvents, Changed;
    if n > 0 {
      RowsAfterScan(s, cols, p, n - 1, r);
      ChangedIsDifferent(p.rows[n - 1], ScanRows(s, cols, p, n - 1).previous[n - 1]);
      RowsAfterScan(s, cols, p, n - 1, n - 1);
    }
  }

  /** After a pass without ghosts the copy is the snapshot. */
  lemma GhostFreePass(s: State, cols: nat, p: Pass)
    requires Fits(|s.previous|, cols, p) && forall r :: 0 <= r < |p.rows| ==> !Rectangle(p, cols, r)
    ensures Scan(s, cols, p).previous == p.rows
  {
    hide Rectangle, ScanRows;
    forall r | 0 <= r < |p.rows| ensures Scan(s, cols, p).previous[r] == p.rows[r] {
      RowsAfterScan(s, cols, p, |p.rows|, r);
    }
  }

  /** The same after any earlier passes: whatever ghosts there were, the last snapshot without any is what
      the copy holds. */
  lemma {:induction false} RunEndsWithSnapshot(s: State, cols: nat, ps: seq<Pass>, p: Pass)
    requires forall i :: 0 <= i < |ps| ==> Fits(|s.previous|, cols, ps[i])
    requires Fits(|s.previous|, cols, p) && forall r :: 0 <= r < |p.rows| ==> !Rectangle(p, cols, r)
    ensures forall i :: 0 <= i < |ps + [p]| ==> Fits(|s.previous|, cols, (ps + [p])[i])
    ensures Run(s, cols, ps + [p]).previous == p.rows
    decreases |ps|
  {
    hide Scan, Rectangle, Fits;
    var all := ps + [p];
    forall i | 0 <= i < |all| ensures Fits(|s.previous|, cols, all[i]) {}
    if ps == [] {
      assert all[1..] == [];
      GhostFreePass(s, cols, p);
    } else {
      assert all[1..] == ps[1..] + [p] && all[0] == ps[0];
      RunEndsWithSnapshot(Scan(s, cols, ps[0]), cols, ps[1..], p);
    }
  }

  /** A pass of a side that does not process key presses emits nothing, and still keeps up its copy. */
  lemma {:induction false} SilentPass(s: State, cols: nat, p: Pass, n: nat)
    requires Fits(|s.previous|, cols, p) && n <= |p.rows| && !p.process
    ensures ScanRows(s, cols, p, n).events == s.events
    decreases n
  {
    hide Rectangle, RowEvents, Changed;
    if n > 0 { SilentPass(s, cols, p, n - 1); }
  }

  /** What a row with a ghost is: its switches and those of some other row are closed in the same two
      columns, and all four positions are mapped to keys. */
  lemma RectangleHasFourCorners(p: Pass, cols: nat, r: nat)
    requires r < |p.rows| && cols <= COLS_MAX
    ensures Rectangle(p, cols, r) <==> exists i: nat, c: nat, d: nat ::
      && i < |p.rows| && i != r && c < d < cols
      && On(p.rows[r], c) && On(p.rows[r], d) && On(p.rows[i], c) && On(p.rows[i], d)
      && p.mapped((r, c)) && p.mapped((r, d)) && p.mapped((i, c)) && p.mapped((i, d))
  {
    hide On;
    if Rectangle(p, cols, r) {
      var i: nat, c: nat, d: nat :| i < |p.rows| && i != r && c < d < cols && Shared(p, r, i, c) && Shared(p, r, i, d);
    }
    if i: nat, c: nat, d: nat :|
      && i < |p.rows| && i != r && c < d < cols
      && On(p.rows[r], c) && On(p.rows[r], d) && On(p.rows[i], c) && On(p.rows[i], d)
      && p.mapped((r, c)) && p.mapped((r, d)) && p.mapped((i, c)) && p.mapped((i, d))
    {
      assert Shared(p, r, i, c) && Shared(p, r, i, d);
    }
  }
}
