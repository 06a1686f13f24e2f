/** Matrix rows as 32-bit words, the widest matrix_row_t: single bits, and the bit trick that tells
    whether more than one is set. */
module RowBits {
  type Row = bv32

  const COLS_MAX := 32

  /** `(matrix_row_t)1 << c` */
  function Mask(c: nat): Row
    requires c < COLS_MAX
  {
    if c == 0 then 1 else Mask(c - 1) << 1
  }

  predicate Hits(x: Row, m: Row) {
    x & m != 0
  }

  /** The key in column `c` is down. */
  predicate On(x: Row, c: nat)
    requires c < COLS_MAX
  {
    Hits(x, Mask(c))
  }

  predicate Single(m: Row) {
    m != 0 && m & (m - 1) == 0
  }

  /** Doubling a single bit below the top one gives a larger single bit. */
  lemma ShiftSingle(m: Row)
    requires Single(m) && m < 0x8000_0000
    ensures Single(m << 1) && m < m << 1
  {
  }

  lemma TopMask()
    ensures Mask(31) == 0x8000_0000
  {
    assert Mask(8) == 0x100;
    assert Mask(16) == 0x1_0000;
    assert Mask(24) == 0x100_0000;
  }

  lemma {:induction false} ZeroStays(c: nat, d: nat)
    requires c <= d < COLS_MAX && Mask(c) == 0
    ensures Mask(d) == 0
    decreases d
  {
    if c < d { ZeroStays(c, d - 1); }
  }

  /** A single bit shifted out below column 31 would leave column 31 empty. */
  lemma BelowTop(d: nat)
    requires d < 31 && Single(Mask(d))
    ensures Mask(d) < 0x8000_0000
  {
    TopMask();
    if Mask(d) >= 0x8000_0000 {
      TopShiftsOut(Mask(d));
      ZeroStays(d + 1, 31);
    }
  }

  lemma TopShiftsOut(m: Row)
    requires Single(m) && m >= 0x8000_0000
    ensures m << 1 == 0
  {
  }

  /** Masks are single bits, and grow with the column. */
  lemma {:induction false} MaskGrows(c: nat, d: nat)
    requires c <= d < COLS_MAX
    ensures Single(Mask(d)) && (c < d ==> Mask(c) < Mask(d))
    decreases d
  {
    if d > 0 {
      MaskGrows(if c < d then c else 0, d - 1);
      BelowTop(d - 1);
      ShiftSingle(Mask(d - 1));
    }
  }

  /** Single bits that differ have nothing in common. */
  predicate Disjoint(m: Row, n: Row) {
    m & n == 0
  }

  lemma SinglesDisjoint(a: Row, b: Row)
    requires Single(a) && Single(b) && a != b
    ensures Disjoint(a, b)
  {
  }

  lemma MasksDisjoint(c: nat, d: nat)
    requires c < COLS_MAX && d < COLS_MAX && c != d
    ensures Disjoint(Mask(c), Mask(d))
  {
    hide Mask, Single, Disjoint;
    MaskGrows(c, c);
    MaskGrows(d, d);
    if c < d { MaskLess(c, d); } else { MaskLess(d, c); }
    SinglesDisjoint(Mask(c), Mask(d));
  }

  /** No bit of `x` below the single bit `m` is set. */
  predicate NoneBelow(x: Row, m: Row) {
    x & (m - 1) == 0
  }

  lemma NextPrefix(x: Row, m: Row)
    requires Single(m) && NoneBelow(x, m) && !Hits(x, m)
    ensures NoneBelow(x, m << 1)
    ensures m == 0x8000_0000 ==> x == 0
  {
  }

  lemma NextMask(c: nat)
    requires c + 1 < COLS_MAX
    ensures Mask(c + 1) == Mask(c) << 1
  {
  }

  lemma {:induction false} FindBit(x: Row, c: nat) returns (d: nat)
    requires c < COLS_MAX && x != 0 && NoneBelow(x, Mask(c))
    ensures c <= d < COLS_MAX && On(x, d)
    decreases COLS_MAX - c
  {
    hide Mask, Single, Hits, NoneBelow;
    if On(x, c) { return c; }
    MaskGrows(c, c);
    NextPrefix(x, Mask(c));
    if c == 31 {
      TopMask();
      assert false;
    }
    NextMask(c);
    d := FindBit(x, c + 1);
  }

  /** Every non-zero word has a bit. */
  lemma SomeBit(x: Row) returns (c: nat)
    requires x != 0
    ensures c < COLS_MAX && On(x, c)
  {
    c := FindBit(x, 0);
  }

  lemma XorBit(x: Row, y: Row, m: Row)
    requires Single(m)
    ensures Hits(x ^ y, m) <==> !(Hits(x, m) <==> Hits(y, m))
  {
  }

  /** `rowdata & (rowdata - 1)`: the word without its lowest bit. */
  function Rest(x: Row): Row {
    x & (x - 1)
  }

  /** popcount_more_than_one */
  predicate MoreThanOne(x: Row) {
    Rest(x) != 0
  }

  function Lowest(x: Row): Row {
    x & !Rest(x)
  }

  lemma LowestIsNonzero(x: Row)
    requires x != 0
    ensures Lowest(x) != 0
  {
  }

  lemma RestOfZero()
    ensures Rest(0) == 0
  {
  }

  lemma Parts(x: Row, m: Row, n: Row)
    requires Single(m) && Hits(Lowest(x), m) && Hits(Rest(x), n)
    ensures Hits(x, m) && Hits(x, n) && m != n
  {
  }

  lemma TwoSingles(x: Row, a: Row, b: Row)
    requires Single(a) && Single(b) && a != b && Hits(x, a) && Hits(x, b)
    ensures Rest(x) != 0
  {
  }

  lemma TwoBits(x: Row) returns (c: nat, d: nat)
    requires MoreThanOne(x)
    ensures c < COLS_MAX && d < COLS_MAX && c != d && On(x, c) && On(x, d)
  {
    hide Mask, Single, Rest, Lowest, Hits;
    if x == 0 { RestOfZero(); }
    LowestIsNonzero(x);
    d := SomeBit(Rest(x));
    c := SomeBit(Lowest(x));
    MaskGrows(c, c);
    Parts(x, Mask(c), Mask(d));
  }

  lemma TwoColumns(x: Row, c: nat, d: nat)
    requires c < d < COLS_MAX && On(x, c) && On(x, d)
    ensures MoreThanOne(x)
  {
    hide Mask, Single, Rest, Hits;
    MaskGrows(c, d);
    MaskGrows(c, c);
    MaskLess(c, d);
    TwoSingles(x, Mask(c), Mask(d));
  }

  lemma MaskLess(c: nat, d: nat)
    requires c < d < COLS_MAX
    ensures Mask(c) != Mask(d)
  {
    MaskGrows(c, d);
  }

  /** The trick is exact: it holds if and only if two different columns are on. */
  lemma MoreThanOneIsTwo(x: Row)
    ensures MoreThanOne(x) <==> exists c, d :: 0 <= c < d < COLS_MAX && On(x, c) && On(x, d)
  {
    hide On, MoreThanOne;
    if MoreThanOne(x) {
      var c, d := TwoBits(x);
      if d < c { c, d := d, c; }
      assert 0 <= c < d < COLS_MAX && On(x, c) && On(x, d);
    }
    if c, d :| 0 <= c < d < COLS_MAX && On(x, c) && On(x, d) { TwoColumns(x, c, d); }
  }

  /** The word with one more column on. */
  function With(x: Row, m: Row): Row {
    x | m
  }

  lemma WithSame(x: Row, m: Row)
    requires Single(m)
    ensures Hits(With(x, m), m)
  {
  }

  lemma WithOther(x: Row, m: Row, n: Row)
    requires Disjoint(m, n)
    ensures Hits(With(x, m), n) <==> Hits(x, n)
  {
  }

  lemma WithColumn(x: Row, col: nat, c: nat)
    requires col < COLS_MAX && c < COLS_MAX
    ensures On(With(x, Mask(col)), c) <==> On(x, c) || c == col
  {
    hide Mask, Hits, Single, With, Disjoint;
    MaskGrows(c, c);
    if c == col {
      WithSame(x, Mask(c));
    } else {
      MasksDisjoint(col, c);
      WithOther(x, Mask(col), Mask(c));
    }
  }

  lemma AndHits(x: Row, y: Row, m: Row)
    requires Single(m)
    ensures Hits(x & y, m) <==> Hits(x, m) && Hits(y, m)
  {
  }

  lemma WithHits(x: Row, m: Row, n: Row)
    ensures Hits(With(x, m), n) <==> Hits(x, n) || Hits(m, n)
  {
    Distribute(x, m, n);
    NothingToAdd(x & n, m & n);
  }

  lemma Distribute(x: Row, m: Row, n: Row)
    ensures With(x, m) & n == (x & n) | (m & n)
  {
  }

  lemma NothingToAdd(a: Row, b: Row)
    ensures a | b == 0 <==> a == 0 && b == 0
  {
  }
}
