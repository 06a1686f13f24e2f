/** The Intel HEX side of util/uf2conv.py on values: reading lines into byte writes, and collecting the
    writes into the 256-byte pages that become UF2 sectors. */
module IntelHex {
  import opened Words
  import opened Uf2

  /** One data byte and the address it goes to. */
  datatype Write = Write(addr: nat, byte: Byte)

  // ---------------------------------------------------------------- lines

  function HexDigit(c: char): Option<nat> {
    if '0' <= c <= '9' then Some(c as int - '0' as int)
    else if 'a' <= c <= 'f' then Some(c as int - 'a' as int + 10)
    else if 'A' <= c <= 'F' then Some(c as int - 'A' as int + 10)
    else None
  }

  /** int(cc, 16) for two characters of a text that is_hex accepts: a carriage return is blank. */
  function PairValue(c: char, d: char): (r: Option<Byte>) {
    var x, y := HexDigit(c), HexDigit(d);
    if x.Some? && y.Some? then Some(DigitPair(x.value, y.value, c, d))
    else if x.Some? && d == '\r' then Some(Small(c))
    else if c == '\r' && y.Some? then Some(Small(d))
    else None
  }

  function DigitPair(x: nat, y: nat, c: char, d: char): Byte
    requires HexDigit(c) == Some(x) && HexDigit(d) == Some(y)
  {
    x * 16 + y
  }

  function Small(c: char): Byte
    requires HexDigit(c).Some?
  {
    HexDigit(c).value
  }

  /** The inner parsing loop: pairs of characters, a last single one being left. */
  function ParsePairs(s: string): Result<Bytes> {
    if |s| < 2 then Ok([])
    else
      var x := PairValue(s[0], s[1]);
      if x == None then Err(ValueError) else Prepend([x.value], ParsePairs(s[2..]))
  }

  function Prepend(b: Bytes, r: Result<Bytes>): Result<Bytes> {
    if r.Err? then r else Ok(b + r.value)
  }

  // ---------------------------------------------------------------- records

  /** The local variables of convert_from_hex_to_uf2, with the bytes written so far in order. */
  datatype Reader = Reader(appstart: Option<int>, upper: nat, writes: seq<Write>, done: bool)

  const START := Reader(None, 0, [], false)

  /** The writes of consecutive bytes from `addr` on. */
  function WritesAt(addr: nat, data: Bytes): (ws: seq<Write>)
    ensures |ws| == |data|
  {
    seq(|data|, i requires 0 <= i < |data| => Write(addr + i, data[i]))
  }

  /** What one parsed record does. Byte count and checksum are not looked at. */
  function ApplyRecord(r: Reader, rec: Bytes): Result<Reader> {
    if |rec| < 4 then Err(IndexError)
    else if rec[3] == 4 || rec[3] == 2 then
      if |rec| < 6 then Err(IndexError)
      else Ok(r.(upper := (rec[4] as int * 256 + rec[5]) * if rec[3] == 4 then 0x1_0000 else 16))
    else if rec[3] == 1 then Ok(r.(done := true))
    else if rec[3] == 0 then
      var addr := r.upper + rec[1] as int * 256 + rec[2];
      var data := if |rec| > 4 then rec[4..|rec| - 1] else [];
      Ok(r.(appstart := if r.appstart == None then Some(addr) else r.appstart,
            writes := r.writes + WritesAt(addr, data)))
    else Ok(r)
  }

  function ReadLine(r: Reader, line: string): Result<Reader> {
    if line == "" then Err(IndexError)
    else if line[0] != ':' then Ok(r)
    else
      var rec := ParsePairs(line[1..]);
      if rec.Err? then Err(rec.error) else ApplyRecord(r, rec.value)
  }

  /** The loop over the lines, up to an end-of-file record. */
  function ReadLines(r: Reader, lines: seq<string>): Result<Reader>
    decreases |lines|
  {
    if lines == [] || r.done then Ok(r)
    else
      var r' := ReadLine(r, lines[0]);
      if r'.Err? then r' else ReadLines(r'.value, lines[1..])
  }

  // ---------------------------------------------------------------- pages

  function PageAddr(addr: nat): nat {
    addr / 256 * 256
  }

  /** A page of zeros but for one byte. */
  function NewPage(w: Write): (p: Page)
    ensures FullPage(p)
  {
    Page(PageAddr(w.addr), Zeros(256)[w.addr % 256 := w.byte])
  }

  /** The handling of one data byte: into the current block if it lies in its page, or else into a new
      block. */
  function AddWrite(ps: seq<Page>, w: Write): (r: seq<Page>)
    requires FullPages(ps)
    ensures FullPages(r)
  {
    if ps == [] || ps[|ps| - 1].addr != PageAddr(w.addr) then ps + [NewPage(w)]
    else
      var p := ps[|ps| - 1];
      ps[|ps| - 1 := p.(bytes := p.bytes[w.addr % 256 := w.byte])]
  }

  /** The blocks after the first `n` writes. */
  function Collect(ws: seq<Write>, n: nat): (ps: seq<Page>)
    requires n <= |ws|
    ensures FullPages(ps)
    ensures n > 0 ==> ps != [] && ps[|ps| - 1].addr == PageAddr(ws[n - 1].addr)
    ensures |ps| <= n
  {
    if n == 0 then [] else AddWrite(Collect(ws, n - 1), ws[n - 1])
  }

  /** convert_from_hex_to_uf2: the file, and the appstartaddr it leaves. */
  function HexToUf2(lines: seq<string>, family: Word32, device: Word32): Result<(Bytes, Option<int>)> {
    var r := ReadLines(START, lines);
    if r.Err? then Err(r.error)
    else
      var ps := Collect(r.value.writes, |r.value.writes|);
      if !Packable(ps) then Err(PackError) else Ok((Sectors(ps, |ps|, family, device), r.value.appstart))
  }
}
