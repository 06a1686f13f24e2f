/** The settings enumeration of quantum/qmk_settings.c: one page of setting ids above a given one, and
    the host's loop that asks for page after page. */
module SettingsQuery {
  import opened Words

  const NO_MORE: Word16 := 0xFFFF

  /** The table of settings: ids in strictly ascending order, none of them the end marker. */
  ghost predicate ValidTable(ids: seq<Word16>) {
    && (forall i, j :: 0 <= i < j < |ids| ==> ids[i] < ids[j])
    && (forall i :: 0 <= i < |ids| ==> ids[i] < NO_MORE)
  }

  /** The ids above `greaterThan`, in table order. */
  function Above(ids: seq<Word16>, greaterThan: Word16): (r: seq<Word16>) {
    if ids == [] then []
    else (if ids[0] > greaterThan then [ids[0]] else []) + Above(ids[1..], greaterThan)
  }

  function Take<T>(s: seq<T>, n: nat): seq<T> {
    if |s| <= n then s else s[..n]
  }

  /** memcpy of ids into the page, low byte first. */
  function Bytes(ids: seq<Word16>): (b: seq<Byte>)
    ensures |b| == 2 * |ids|
  {
    if ids == [] then [] else Bytes(ids[..|ids| - 1]) + [ids[|ids| - 1] % 256, ids[|ids| - 1] / 256]
  }

  function Filler(n: nat): (b: seq<Byte>)
    ensures |b| == n
  {
    seq(n, _ => 0xFF)
  }

  /** qmk_settings_query: as many of the ids above `greaterThan` as fit, and 0xFF bytes behind them. */
  function Query(ids: seq<Word16>, greaterThan: Word16, size: nat): (page: seq<Byte>)
    ensures |page| == size
  {
    var found := Take(Above(ids, greaterThan), size / 2);
    Bytes(found) + Filler(size - 2 * |found|)
  }

  // ---------------------------------------------------------------- the host's side

  /** The 16-bit entries of a page. */
  function Entries(page: seq<Byte>): (es: seq<Word16>)
    ensures |es| == |page| / 2
    ensures forall i :: 0 <= i < |es| ==> es[i] == page[2 * i] as int + page[2 * i + 1] as int * 256
  {
    seq(|page| / 2, i requires 0 <= i < |page| / 2 => Entry(page[2 * i], page[2 * i + 1]))
  }

  function Entry(lo: Byte, hi: Byte): Word16 {
    lo as int + hi as int * 256
  }

  /** The entries before the first end marker. */
  function Before(es: seq<Word16>): seq<Word16> {
    if es == [] || es[0] == NO_MORE then [] else [es[0]] + Before(es[1..])
  }

  lemma EntryRoundTrip(x: Word16)
    ensures Entry(x % 256, x / 256) == x
  {
  }

  lemma {:induction false} BytesAt(ids: seq<Word16>, i: nat)
    requires i < |ids|
    ensures Bytes(ids)[2 * i] == ids[i] % 256 && Bytes(ids)[2 * i + 1] == ids[i] / 256
  {
    if i < |ids| - 1 {
      BytesAt(ids[..|ids| - 1], i);
    }
  }

  /** A page read back: the ids found, then end markers only. */
  lemma EntriesOfQuery(ids: seq<Word16>, seen: Word16, size: nat, i: nat)
    requires i < size / 2
    ensures var found := Take(Above(ids, seen), size / 2);
      Entries(Query(ids, seen, size))[i] == if i < |found| then found[i] else NO_MORE
  {
    hide Above;
    var found := Take(Above(ids, seen), size / 2);
    if i < |found| {
      BytesAt(found, i);
      EntryRoundTrip(found[i]);
    }
  }

  lemma {:induction false} BeforeIs(es: seq<Word16>, found: seq<Word16>)
    requires |found| <= |es| && found == es[..|found|] && (forall i :: 0 <= i < |found| ==> found[i] != NO_MORE)
    requires |found| < |es| ==> es[|found|] == NO_MORE
    ensures Before(es) == found
    decreases |found|
  {
    if found != [] {
      assert es[0] == found[0];
      BeforeIs(es[1..], found[1..]);
    }
  }

  lemma TailAscends(ids: seq<Word16>)
    requires ValidTable(ids) && ids != []
    ensures ValidTable(ids[1..]) && forall i :: 0 <= i < |ids[1..]| ==> ids[1..][i] > ids[0]
  {
    assert forall i :: 0 <= i < |ids| - 1 ==> ids[1..][i] == ids[i + 1];
  }

  lemma {:induction false} AboveBound(ids: seq<Word16>, seen: Word16)
    ensures forall i :: 0 <= i < |Above(ids, seen)| ==> Above(ids, seen)[i] > seen
  {
    if ids != [] { AboveBound(ids[1..], seen); }
  }

  lemma {:induction false} AboveEverything(ids: seq<Word16>, seen: Word16)
    requires forall i :: 0 <= i < |ids| ==> ids[i] > seen
    ensures Above(ids, seen) == ids
  {
    if ids != [] { AboveEverything(ids[1..], seen); }
  }

  lemma AboveHead(ids: seq<Word16>, seen: Word16)
    requires ValidTable(ids) && ids != []
    ensures ids[0] > seen ==> Above(ids, seen) == ids
    ensures ids[0] <= seen ==> Above(ids, seen) == Above(ids[1..], seen)
  {
    TailAscends(ids);
    if ids[0] > seen { AboveEverything(ids[1..], seen); }
  }

  /** Ids above a bound: those of the table, still ascending, none skipped. */
  lemma {:induction false} AboveAscends(ids: seq<Word16>, seen: Word16)
    requires ValidTable(ids)
    ensures ValidTable(Above(ids, seen)) && forall i :: 0 <= i < |Above(ids, seen)| ==> Above(ids, seen)[i] > seen
  {
    AboveBound(ids, seen);
    if ids == [] {
      AboveNone(seen);
    } else {
      AboveHead(ids, seen);
      TailAscends(ids);
      hide ValidTable, Above;
      AboveAscends(ids[1..], seen);
    }
  }

  /** Asking above the n-th id found leaves out exactly the ids up to it. */
  lemma {:induction false} AboveFrom(ids: seq<Word16>, seen: Word16, n: nat)
    requires ValidTable(ids) && n < |Above(ids, seen)|
    ensures Above(ids, Above(ids, seen)[n]) == Above(ids, seen)[n + 1..]
  {
    hide Above, ValidTable;
    if ids == [] {
      AboveNone(seen);
      return;
    }
    AboveHead(ids, seen);
    TailAscends(ids);
    if ids[0] <= seen {
      AboveFrom(ids[1..], seen, n);
      AboveAscends(ids, seen);
      AboveHead(ids, Above(ids, seen)[n]);
    } else if n == 0 {
      AboveHead(ids, ids[0]);
      AboveEverything(ids[1..], ids[0]);
    } else {
      AboveEverything(ids[1..], ids[0]);
      AboveFrom(ids[1..], ids[0], n - 1);
      AboveHead(ids, ids[n]);
    }
  }

  lemma PageIs(ids: seq<Word16>, seen: Word16, size: nat)
    requires ValidTable(ids)
    ensures Before(Entries(Query(ids, seen, size))) == Take(Above(ids, seen), size / 2)
  {
    hide Above, Query, Entries;
    AboveAscends(ids, seen);
    var found := Take(Above(ids, seen), size / 2);
    var es := Entries(Query(ids, seen, size));
    forall i | 0 <= i < size / 2 ensures es[i] == if i < |found| then found[i] else NO_MORE {
      EntriesOfQuery(ids, seen, size, i);
    }
    BeforeIs(es, found);
  }

  /** The host's enumeration: ask with the largest id seen until a page holds the end marker. */
  function Enumerate(ids: seq<Word16>, seen: Word16, size: nat): seq<Word16>
    requires ValidTable(ids) && size >= 2
    decreases NO_MORE - seen
  {
    var es := Entries(Query(ids, seen, size));
    var got := Before(es);
    if |got| < |es| then got
    else
      PageIs(ids, seen, size);
      AboveAscends(ids, seen);
      got + Enumerate(ids, got[|got| - 1], size)
  }

  /** For every table and every page size of at least two bytes the enumeration ends and lists every id
      above the one it starts from exactly once, in ascending order. */
  lemma {:induction false} EnumerationIsComplete(ids: seq<Word16>, seen: Word16, size: nat)
    requires ValidTable(ids) && size >= 2
    ensures Enumerate(ids, seen, size) == Above(ids, seen)
    decreases NO_MORE - seen
  {
    hide Above, Query, Entries, Before;
    var es, all := Entries(Query(ids, seen, size)), Above(ids, seen);
    var got := Before(es);
    PageIs(ids, seen, size);
    AboveAscends(ids, seen);
    assert |es| == size / 2;
    if |got| == |es| {
      var n := |got| - 1;
      assert got[n] == all[n];
      AboveFrom(ids, seen, n);
      EnumerationIsComplete(ids, got[n], size);
      assert got + all[n + 1..] == all;
    }
  }

  /** Started from zero it lists the whole table, when all ids are positive. */
  lemma EnumerationListsAll(ids: seq<Word16>, size: nat)
    requires ValidTable(ids) && size >= 2 && forall i :: 0 <= i < |ids| ==> ids[i] > 0
    ensures Enumerate(ids, 0, size) == ids
  {
    EnumerationIsComplete(ids, 0, size);
    AboveEverything(ids, 0);
  }

  // ---------------------------------------------------------------- the firmware's loop

  lemma {:induction false} AboveSnoc(ids: seq<Word16>, x: Word16, seen: Word16)
    ensures Above(ids + [x], seen) == Above(ids, seen) + if x > seen then [x] else []
  {
    if ids == [] {
      assert ids + [x] == [x];
    } else {
      assert (ids + [x])[1..] == ids[1..] + [x] && (ids + [x])[0] == ids[0];
      AboveSnoc(ids[1..], x, seen);
      var head, last := if ids[0] > seen then [ids[0]] else [], if x > seen then [x] else [];
      var rest := Above(ids[1..], seen);
      assert head + (rest + last) == head + rest + last;
    }
  }

  /** qmk_settings_query as it runs: fill the buffer with 0xFF, then copy ids until it is full. */
  method QmkSettingsQuery(ids: seq<Word16>, greaterThan: Word16, buffer: array<Byte>)
    modifies buffer
    ensures buffer[..] == Query(ids, greaterThan, buffer.Length)
  {
    hide Above, Take, Bytes, Filler;
    var sz := buffer.Length;
    FillPage(buffer);
    ghost var found: seq<Word16> := [];
    var offset, i := 0, 0;
    AboveNone(greaterThan);
    EmptyPage(sz);
    while i < |ids| && offset + 2 <= sz
      invariant 0 <= i <= |ids| && offset == 2 * |found| <= sz
      invariant found == Above(ids[..i], greaterThan)
      invariant buffer[..] == Bytes(found) + Filler(sz - offset)
    {
      AboveSnoc(ids[..i], ids[i], greaterThan);
      assert ids[..i + 1] == ids[..i] + [ids[i]];
      var qsid := ids[i];
      if qsid > greaterThan {
        StoreId(buffer, offset, found, qsid);
        found := found + [qsid];
        offset := offset + 2;
      }
      i := i + 1;
    }
    PageIsDone(ids, i, greaterThan, sz);
  }

  /** memset of the whole page. */
  method FillPage(buffer: array<Byte>)
    modifies buffer
    ensures buffer[..] == Filler(buffer.Length)
  {
    for i := 0 to buffer.Length
      invariant forall k :: 0 <= k < i ==> buffer[k] == 0xFF
    {
      buffer[i] := 0xFF;
    }
  }

  lemma EmptyPage(sz: nat)
    ensures Filler(sz) == Bytes([]) + Filler(sz)
  {
  }

  /** The loop ends with as many ids as fit. */
  lemma PageIsDone(ids: seq<Word16>, i: nat, seen: Word16, sz: nat)
    requires i <= |ids| && (i == |ids| || 2 * |Above(ids[..i], seen)| + 2 > sz)
    requires 2 * |Above(ids[..i], seen)| <= sz
    ensures Above(ids[..i], seen) == Take(Above(ids, seen), sz / 2)
  {
    hide Above;
    AbovePrefix(ids, i, seen);
    if i == |ids| { assert ids[..i] == ids; }
  }

  lemma AboveNone(seen: Word16)
    ensures Above([], seen) == []
  {
  }

  /** The ids found in a prefix of the table are a prefix of all. */
  lemma {:induction false} AbovePrefix(ids: seq<Word16>, n: nat, seen: Word16)
    requires n <= |ids|
    ensures Above(ids[..n], seen) <= Above(ids, seen)
    decreases |ids| - n
  {
    if n < |ids| {
      AboveSnoc(ids[..n], ids[n], seen);
      assert ids[..n + 1] == ids[..n] + [ids[n]];
      AbovePrefix(ids, n + 1, seen);
    } else {
      assert ids[..n] == ids;
    }
  }

  /** memcpy of one id into the page. */
  method StoreId(buffer: array<Byte>, offset: nat, ghost found: seq<Word16>, qsid: Word16)
    requires offset == 2 * |found| && offset + 2 <= buffer.Length
    requires buffer[..] == Bytes(found) + Filler(buffer.Length - offset)
    modifies buffer
    ensures buffer[..] == Bytes(found + [qsid]) + Filler(buffer.Length - offset - 2)
  {
    assert Filler(buffer.Length - offset)[2..] == Filler(buffer.Length - offset - 2);
    assert Bytes(found + [qsid]) == Bytes(found) + [qsid % 256, qsid / 256] by {
      assert (found + [qsid])[..|found|] == found;
    }
    buffer[offset] := qsid % 256;
    buffer[offset + 1] := qsid / 256;
  }
}
