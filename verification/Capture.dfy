/**
 The packet capture format of lib/packet_cap.py: a bit-packed file header followed by
 length-prefixed entries, a writer, and a reader that stops at the end of the file.

 zlib is an arbitrary pair of functions; theorems that need it say that decompress undoes
 compress.  A timestamp is its 32-bit pattern.
 */
module Capture {
  import opened Common

  type Byte = b: int | 0 <= b < 256
  type Bytes = seq<Byte>
  type U32 = n: int | 0 <= n < 0x1_0000_0000

  datatype Error = StructError | ValueError | TypeError

  // ---------------------------------------------------------------------
  // Integers in either byte order
  // ---------------------------------------------------------------------

  function LittleBytes(n: U32): Bytes {
    [n % 256, n / 256 % 256, n / 65536 % 256, n / 16777216]
  }

  function U32Bytes(n: U32, little: bool): (bs: Bytes)
    ensures |bs| == 4
  {
    var l := LittleBytes(n);
    if little then l else [l[3], l[2], l[1], l[0]]
  }

  function U32Of(bs: Bytes, little: bool): U32
    requires |bs| == 4
  {
    var b0: int, b1: int, b2: int, b3: int := bs[0], bs[1], bs[2], bs[3];
    if little then b0 + 256 * b1 + 65536 * b2 + 16777216 * b3
    else b3 + 256 * b2 + 65536 * b1 + 16777216 * b0
  }

  lemma U32RoundTrip(n: U32, little: bool)
    ensures U32Of(U32Bytes(n, little), little) == n
  {
    assert n / 256 == n / 65536 * 256 + n / 256 % 256;
    assert n / 65536 == n / 16777216 * 256 + n / 65536 % 256;
  }

  lemma DigitsOf(l0: Byte, l1: Byte, l2: Byte, l3: Byte)
    ensures var n := l0 as int + 256 * l1 as int + 65536 * l2 as int + 16777216 * l3 as int;
            0 <= n < 0x1_0000_0000 && LittleBytes(n) == [l0, l1, l2, l3]
  {
    var high2: int := l2 as int + 256 * l3 as int;
    var high1 := l1 as int + 256 * high2;
    var n := l0 as int + 256 * high1;
    assert n / 256 == high1 && n % 256 == l0;
    assert high1 / 256 == high2 && high1 % 256 == l1;
    assert n / 65536 == high2;
    assert n / 16777216 == l3;
  }

  lemma BytesRoundTrip(bs: Bytes, little: bool)
    requires |bs| == 4
    ensures U32Bytes(U32Of(bs, little), little) == bs
  {
    if little {
      DigitsOf(bs[0], bs[1], bs[2], bs[3]);
    } else {
      DigitsOf(bs[3], bs[2], bs[1], bs[0]);
    }
  }

  // ---------------------------------------------------------------------
  // The file header
  // ---------------------------------------------------------------------

  datatype Header = Header(major: int, minor: int, numPackets: int, littleEndian: bool, compressed: bool)

  const MAGIC: Bytes := [0x46, 0x31, 0x55, 0x44, 0x50, 0]
  const HEADER_LEN := 12

  /** The constructor's range checks. */
  function MakeHeader(major: int, minor: int, numPackets: int, littleEndian: bool, compressed: bool)
    : Result<Header, Error>
  {
    if major > 7 || minor > 15 then Err(ValueError)
    else Ok(Header(major, minor, numPackets, littleEndian, compressed))
  }

  function HeaderToBytes(h: Header): Result<Bytes, Error> {
    var flags := if h.compressed then 1 else 0;
    var version := (if h.littleEndian then 128 else 0) + h.major * 16 + h.minor;
    if !(0 <= version < 256) || !(0 <= h.numPackets < 0x1_0000_0000) then Err(StructError)
    else Ok(MAGIC + [flags, version] + U32Bytes(h.numPackets, true))
  }

  /** The magic number and the unused flag bits are read past. */
  function HeaderFromBytes(data: Bytes): Result<Header, Error> {
    if |data| != HEADER_LEN then Err(StructError)
    else
      var flags, version := data[6], data[7];
      MakeHeader(version / 16 % 8, version % 16, U32Of(data[8..], true), version / 128 % 2 == 1, flags % 2 == 1)
  }

  lemma HeaderRoundTrip(h: Header)
    requires 0 <= h.major <= 7 && 0 <= h.minor <= 15 && 0 <= h.numPackets < 0x1_0000_0000
    ensures HeaderToBytes(h).Ok? && |HeaderToBytes(h).value| == HEADER_LEN
    ensures HeaderFromBytes(HeaderToBytes(h).value) == Ok(h)
  {
    var data := HeaderToBytes(h).value;
    U32RoundTrip(h.numPackets, true);
    assert data[8..] == U32Bytes(h.numPackets, true);
  }

  /** Where each field of a header is found in its twelve bytes. */
  lemma HeaderLayout(h: Header)
    requires 0 <= h.major <= 7 && 0 <= h.minor <= 15 && 0 <= h.numPackets < 0x1_0000_0000
    ensures var data := HeaderToBytes(h).value;
            && data[..6] == MAGIC
            && (data[6] == 1 <==> h.compressed) && data[6] <= 1
            && (data[7] >= 128 <==> h.littleEndian)
            && data[7] / 16 % 8 == h.major && data[7] % 16 == h.minor
            && data[8] == h.numPackets % 256 && data[9] == h.numPackets / 256 % 256
            && data[10] == h.numPackets / 65536 % 256 && data[11] == h.numPackets / 16777216
  {}

  /** A header the constructor accepts survives if its fields are not negative and the count fits. */
  lemma ConstructedHeaderRoundTrip(major: int, minor: int, count: int, little: bool, compressed: bool)
    ensures MakeHeader(major, minor, count, little, compressed) ==
            if major <= 7 && minor <= 15 then Ok(Header(major, minor, count, little, compressed)) else Err(ValueError)
    ensures var h := MakeHeader(major, minor, count, little, compressed);
            h.Ok? && 0 <= major && 0 <= minor && 0 <= count < 0x1_0000_0000 ==>
              HeaderToBytes(h.value).Ok? && HeaderFromBytes(HeaderToBytes(h.value).value) == h
  {
    if 0 <= major <= 7 && 0 <= minor <= 15 && 0 <= count < 0x1_0000_0000 {
      HeaderRoundTrip(Header(major, minor, count, little, compressed));
    }
  }

  /** Reading a header and writing it again gives the bytes back exactly when they were canonical. */
  lemma HeaderRewriteIffCanonical(data: Bytes)
    requires |data| == HEADER_LEN
    ensures HeaderFromBytes(data).Ok?
    ensures HeaderToBytes(HeaderFromBytes(data).value) == Ok(data)
            <==> data[..6] == MAGIC && data[6] <= 1
  {
    var h := HeaderFromBytes(data).value;
    BytesRoundTrip(data[8..], true);
    var v := data[7];
    assert v == 128 * (v / 128 % 2) + 16 * (v / 16 % 8) + v % 16;
    var out := HeaderToBytes(h).value;
    assert data == data[..6] + [data[6], data[7]] + data[8..];
    assert out[..6] == MAGIC && out[6] == data[6] % 2;
  }

  // ---------------------------------------------------------------------
  // Entries
  // ---------------------------------------------------------------------

  /** A message: payload, timestamp pattern, and the byte order it will be written in. */
  datatype Packet = Packet(data: Bytes, stamp: U32, little: bool)

  datatype Zlib = Zlib(compress: Bytes -> Bytes, decompress: Bytes -> Option<Bytes>) {
    ghost predicate Inverse() {
      forall x :: decompress(compress(x)) == Some(x)
    }
  }

  /** The two compression helpers: zlib when set, the identity otherwise. */
  function Compress(z: Zlib, zipped: bool, data: Bytes): Bytes {
    if zipped then z.compress(data) else data
  }

  function Decompress(z: Zlib, zipped: bool, data: Bytes): Option<Bytes> {
    if zipped then z.decompress(data) else Some(data)
  }

  predicate Fits(z: Zlib, zipped: bool, p: Packet) {
    |Compress(z, zipped, p.data)| < 0x1_0000_0000
  }

  function EntryBytes(z: Zlib, zipped: bool, p: Packet): (bs: Bytes)
    requires Fits(z, zipped, p)
    ensures |bs| == 8 + |Compress(z, zipped, p.data)|
  {
    var payload := Compress(z, zipped, p.data);
    U32Bytes(p.stamp, p.little) + U32Bytes(|payload|, p.little) + payload
  }

  /** Where an entry keeps its stamp, its length and its payload, for either byte order. */
  lemma EntryLayout(z: Zlib, zipped: bool, p: Packet)
    requires Fits(z, zipped, p)
    ensures var e := EntryBytes(z, zipped, p);
            var n := |e| - 8;
            && e[8..] == (if zipped then z.compress(p.data) else p.data)
            && e[..4] == (if p.little then
                            [p.stamp % 256, p.stamp / 256 % 256, p.stamp / 65536 % 256, p.stamp / 16777216]
                          else
                            [p.stamp / 16777216, p.stamp / 65536 % 256, p.stamp / 256 % 256, p.stamp % 256])
            && e[4..8] == (if p.little then [n % 256, n / 256 % 256, n / 65536 % 256, n / 16777216]
                           else [n / 16777216, n / 65536 % 256, n / 256 % 256, n % 256])
  {}

  /** A message read from bytes always has the default, little-endian, order. */
  function EntryFromBytes(z: Zlib, zipped: bool, little: bool, data: Bytes): Result<Packet, Error>
    requires |data| >= 8
  {
    var stamp, length := U32Of(data[..4], little), U32Of(data[4..8], little);
    match Decompress(z, zipped, data[8..])
    case None => Err(ValueError)
    case Some(payload) =>
      if |data| - 8 != length then Err(ValueError) else Ok(Packet(payload, stamp, true))
  }

  // ---------------------------------------------------------------------
  // The body of a file
  // ---------------------------------------------------------------------

  predicate AllFit(z: Zlib, zipped: bool, ps: seq<Packet>) {
    forall i :: 0 <= i < |ps| ==> Fits(z, zipped, ps[i])
  }

  function EntriesBytes(z: Zlib, zipped: bool, ps: seq<Packet>): Bytes
    requires AllFit(z, zipped, ps)
  {
    if ps == [] then [] else EntryBytes(z, zipped, ps[0]) + EntriesBytes(z, zipped, ps[1..])
  }

  function Min(a: nat, b: nat): nat {
    if a < b then a else b
  }

  /** Where the payload of the entry at the front ends, if the file is long enough. */
  function FirstEntryEnd(body: Bytes, little: bool): (end: nat)
    requires |body| >= 8
    ensures 8 <= end <= |body|
  {
    Min(8 + U32Of(body[4..8], little), |body|)
  }

  /** The packets the read loop appends before it ends, and whether it ended without raising. */
  datatype Body = Body(packets: seq<Packet>, complete: bool)

  function ReadBody(z: Zlib, zipped: bool, little: bool, body: Bytes): Body
    decreases |body|
  {
    if body == [] then Body([], true)
    else if |body| < 8 then Body([], false)
    else
      var end := FirstEntryEnd(body, little);
      match EntryFromBytes(z, zipped, little, body[..end])
      case Err(_) => Body([], false)
      case Ok(p) =>
        Prepend([p], ReadBody(z, zipped, little, body[end..]))
  }

  function Prepend(ps: seq<Packet>, rest: Body): Body {
    Body(ps + rest.packets, rest.complete)
  }

  lemma PrependNothing(ps: seq<Packet>, complete: bool)
    ensures Prepend(ps, Body([], complete)) == Body(ps, complete)
  {}

  lemma PrependTwice(ps: seq<Packet>, p: Packet, rest: Body)
    ensures Prepend(ps, Prepend([p], rest)) == Prepend(ps + [p], rest)
  {}

  /** The packets as a reader hands them out: same payloads and stamps, default byte order. */
  function AsRead(ps: seq<Packet>): (rs: seq<Packet>)
    ensures |rs| == |ps|
    ensures forall i :: 0 <= i < |ps| ==> rs[i] == ps[i].(little := true)
  {
    seq(|ps|, i requires 0 <= i < |ps| => ps[i].(little := true))
  }

  function EntryLength(z: Zlib, zipped: bool, p: Packet): nat {
    8 + |Compress(z, zipped, p.data)|
  }

  /** Where entry k starts: the length of the k entries before it. */
  function Boundary(z: Zlib, zipped: bool, ps: seq<Packet>, k: nat): nat
    requires k <= |ps|
  {
    if k == 0 then 0 else EntryLength(z, zipped, ps[0]) + Boundary(z, zipped, ps[1..], k - 1)
  }

  /** How many entries lie entirely within the first n bytes of the body. */
  function EntriesWithin(z: Zlib, zipped: bool, ps: seq<Packet>, n: nat): (k: nat)
    ensures k <= |ps|
    ensures Boundary(z, zipped, ps, k) <= n
    ensures k < |ps| ==> n < Boundary(z, zipped, ps, k + 1)
  {
    if ps == [] || n < EntryLength(z, zipped, ps[0]) then 0
    else 1 + EntriesWithin(z, zipped, ps[1..], n - EntryLength(z, zipped, ps[0]))
  }

  /**
   An entry at the front of a body, written with one compression mode and read with another: it
   ends where it should, and what is read depends on the payload alone.
   */
  lemma FrontEntryRead(z: Zlib, flag: bool, zipped: bool, p: Packet, rest: Bytes)
    requires Fits(z, zipped, p)
    ensures var e, body := EntryBytes(z, zipped, p), EntryBytes(z, zipped, p) + rest;
            && FirstEntryEnd(body, p.little) == |e|
            && body[..FirstEntryEnd(body, p.little)] == e
            && body[FirstEntryEnd(body, p.little)..] == rest
            && EntryFromBytes(z, flag, p.little, e) ==
                 match Decompress(z, flag, Compress(z, zipped, p.data))
                 case None => Err(ValueError)
                 case Some(data) => Ok(Packet(data, p.stamp, true))
  {
    var payload := Compress(z, zipped, p.data);
    var e := EntryBytes(z, zipped, p);
    var body := e + rest;
    U32RoundTrip(p.stamp, p.little);
    U32RoundTrip(|payload|, p.little);
    assert e[..4] == U32Bytes(p.stamp, p.little);
    assert e[4..8] == body[4..8] == U32Bytes(|payload|, p.little);
    assert e[8..] == payload;
  }

  /** A whole entry at the front of a body is read back as written. */
  lemma FrontEntryReadBack(z: Zlib, zipped: bool, p: Packet, rest: Bytes)
    requires (zipped ==> z.Inverse()) && Fits(z, zipped, p)
    ensures var body := EntryBytes(z, zipped, p) + rest;
            && FirstEntryEnd(body, p.little) == |EntryBytes(z, zipped, p)|
            && body[..FirstEntryEnd(body, p.little)] == EntryBytes(z, zipped, p)
            && body[FirstEntryEnd(body, p.little)..] == rest
            && EntryFromBytes(z, zipped, p.little, EntryBytes(z, zipped, p)) == Ok(p.(little := true))
  {
    FrontEntryRead(z, zipped, zipped, p, rest);
  }

  /** Reading a body that starts with a whole entry: that packet, then the rest. */
  lemma ReadFront(z: Zlib, zipped: bool, p: Packet, rest: Bytes)
    requires (zipped ==> z.Inverse()) && Fits(z, zipped, p)
    ensures ReadBody(z, zipped, p.little, EntryBytes(z, zipped, p) + rest)
            == Prepend([p.(little := true)], ReadBody(z, zipped, p.little, rest))
  {
    FrontEntryReadBack(z, zipped, p, rest);
  }

  /** A proper, nonempty prefix of one entry makes the reader raise. */
  lemma CutEntryRaises(z: Zlib, zipped: bool, p: Packet, n: nat)
    requires Fits(z, zipped, p)
    requires 0 < n < |EntryBytes(z, zipped, p)|
    ensures ReadBody(z, zipped, p.little, EntryBytes(z, zipped, p)[..n]) == Body([], false)
  {
    if n >= 8 {
      hide U32Of, U32Bytes;
      var e := EntryBytes(z, zipped, p);
      var payload := Compress(z, zipped, p.data);
      U32RoundTrip(|payload|, p.little);
      var head := U32Bytes(p.stamp, p.little) + U32Bytes(|payload|, p.little);
      assert e == head + payload;
      assert head[4..] == U32Bytes(|payload|, p.little);
      assert e[..n][4..8] == head[4..];
      assert FirstEntryEnd(e[..n], p.little) == n;
    }
  }

  lemma AsReadFront(ps: seq<Packet>, k: nat)
    requires 0 < k <= |ps|
    ensures AsRead(ps[..k]) == [ps[0].(little := true)] + AsRead(ps[1..][..k - 1])
  {}

  lemma CutInFirstEntry(z: Zlib, zipped: bool, ps: seq<Packet>, n: nat)
    requires AllFit(z, zipped, ps) && ps != []
    requires n < EntryLength(z, zipped, ps[0])
    ensures n <= |EntriesBytes(z, zipped, ps)|
    ensures ReadBody(z, zipped, ps[0].little, EntriesBytes(z, zipped, ps)[..n]) == Body([], n == 0)
  {
    var e, rest := EntryBytes(z, zipped, ps[0]), EntriesBytes(z, zipped, ps[1..]);
    assert (e + rest)[..n] == e[..n];
    if n > 0 {
      CutEntryRaises(z, zipped, ps[0], n);
    }
  }

  lemma CutAfterFirstEntry(z: Zlib, zipped: bool, ps: seq<Packet>, n: nat)
    requires (zipped ==> z.Inverse()) && AllFit(z, zipped, ps) && ps != []
    requires EntryLength(z, zipped, ps[0]) <= n <= |EntriesBytes(z, zipped, ps)|
    ensures var cut := EntriesBytes(z, zipped, ps[1..])[..n - EntryLength(z, zipped, ps[0])];
            ReadBody(z, zipped, ps[0].little, EntriesBytes(z, zipped, ps)[..n])
            == Prepend([ps[0].(little := true)], ReadBody(z, zipped, ps[0].little, cut))
  {
    var e, rest := EntryBytes(z, zipped, ps[0]), EntriesBytes(z, zipped, ps[1..]);
    assert (e + rest)[..n] == e + rest[..n - |e|];
    ReadFront(z, zipped, ps[0], rest[..n - |e|]);
  }

  lemma BodyFront(z: Zlib, zipped: bool, ps: seq<Packet>)
    requires AllFit(z, zipped, ps) && ps != []
    ensures AllFit(z, zipped, ps[1..])
    ensures |EntriesBytes(z, zipped, ps)| ==
            EntryLength(z, zipped, ps[0]) + |EntriesBytes(z, zipped, ps[1..])|
  {}

  lemma CutWithin(z: Zlib, zipped: bool, ps: seq<Packet>, n: nat)
    requires ps != [] && EntryLength(z, zipped, ps[0]) <= n
    ensures var m := n - EntryLength(z, zipped, ps[0]);
            var k := EntriesWithin(z, zipped, ps[1..], m);
            && EntriesWithin(z, zipped, ps, n) == k + 1
            && (n == Boundary(z, zipped, ps, k + 1) <==> m == Boundary(z, zipped, ps[1..], k))
  {}

  /** What the reader makes of the first n bytes of a body: the whole entries, and the verdict. */
  ghost predicate ReadsWholeEntries(z: Zlib, zipped: bool, little: bool, ps: seq<Packet>, n: nat)
    requires AllFit(z, zipped, ps)
    requires n <= |EntriesBytes(z, zipped, ps)|
  {
    var k := EntriesWithin(z, zipped, ps, n);
    var r := ReadBody(z, zipped, little, EntriesBytes(z, zipped, ps)[..n]);
    r.packets == AsRead(ps[..k]) && (r.complete <==> n == Boundary(z, zipped, ps, k))
  }

  lemma CutEarly(z: Zlib, zipped: bool, little: bool, ps: seq<Packet>, n: nat)
    requires AllFit(z, zipped, ps) && n <= |EntriesBytes(z, zipped, ps)|
    requires ps != [] ==> ps[0].little == little && n < EntryLength(z, zipped, ps[0])
    ensures ReadsWholeEntries(z, zipped, little, ps, n)
  {
    if ps != [] {
      CutInFirstEntry(z, zipped, ps, n);
    }
    assert AsRead(ps[..0]) == [];
  }

  lemma CutLater(z: Zlib, zipped: bool, ps: seq<Packet>, n: nat)
    requires (zipped ==> z.Inverse()) && AllFit(z, zipped, ps) && ps != []
    requires EntryLength(z, zipped, ps[0]) <= n <= |EntriesBytes(z, zipped, ps)|
    requires ReadsWholeEntries(z, zipped, ps[0].little, ps[1..], n - EntryLength(z, zipped, ps[0]))
    ensures ReadsWholeEntries(z, zipped, ps[0].little, ps, n)
  {
    CutWithin(z, zipped, ps, n);
    CutAfterFirstEntry(z, zipped, ps, n);
    AsReadFront(ps, EntriesWithin(z, zipped, ps, n));
  }

  /**
   Cut a body written with one byte order anywhere: the reader appends exactly the packets
   whose entries are whole, and raises exactly when the cut is not on an entry boundary.
   */
  lemma {:induction false} TruncatedBody(z: Zlib, zipped: bool, little: bool, ps: seq<Packet>, n: nat)
    requires (zipped ==> z.Inverse()) && AllFit(z, zipped, ps)
    requires forall i :: 0 <= i < |ps| ==> ps[i].little == little
    requires n <= |EntriesBytes(z, zipped, ps)|
    ensures ReadsWholeEntries(z, zipped, little, ps, n)
  {
    hide ReadsWholeEntries, EntriesWithin, Boundary, AsRead, EntryBytes;
    if ps == [] || n < EntryLength(z, zipped, ps[0]) {
      CutEarly(z, zipped, little, ps, n);
    } else {
      BodyFront(z, zipped, ps);
      TruncatedBody(z, zipped, little, ps[1..], n - EntryLength(z, zipped, ps[0]));
      CutLater(z, zipped, ps, n);
    }
  }

  // ---------------------------------------------------------------------
  // A whole file
  // ---------------------------------------------------------------------

  /** What reading a file does: no header at all, or a header and the packets up to the end or the error. */
  datatype FileContents = BadHeader | Contents(header: Header, body: Body)

  function ReadFile(z: Zlib, file: Bytes): FileContents {
    match HeaderFromBytes(file[..Min(HEADER_LEN, |file|)])
    case Err(_) => BadHeader
    case Ok(h) => Contents(h, ReadBody(z, h.compressed, h.littleEndian, file[Min(HEADER_LEN, |file|)..]))
  }

  /** The header a dump writes. */
  function DumpHeader(count: nat, littleHost: bool, flag: bool): Header {
    Header(1, 1, count, littleHost, flag)
  }

  /** The file a dump produces when every entry fits its length field. */
  function DumpFile(z: Zlib, littleHost: bool, flag: bool, zipped: bool, ps: seq<Packet>): Bytes
    requires AllFit(z, zipped, ps) && |ps| < 0x1_0000_0000
  {
    HeaderToBytes(DumpHeader(|ps|, littleHost, flag)).value + EntriesBytes(z, zipped, ps)
  }

  /**
   Truncation: of any prefix of a dump, a prefix shorter than the header has no header; any
   other one yields the header and exactly the packets that are whole, and the reader raises
   exactly when the cut is not right after some entry.
   */
  lemma TruncatedFile(z: Zlib, littleHost: bool, zipped: bool, ps: seq<Packet>, n: nat)
    requires (zipped ==> z.Inverse()) && AllFit(z, zipped, ps) && |ps| < 0x1_0000_0000
    requires forall i :: 0 <= i < |ps| ==> ps[i].little == littleHost
    requires n <= |DumpFile(z, littleHost, zipped, zipped, ps)|
    ensures var r := ReadFile(z, DumpFile(z, littleHost, zipped, zipped, ps)[..n]);
            if n < HEADER_LEN then r == BadHeader
            else
              var k := EntriesWithin(z, zipped, ps, n - HEADER_LEN);
              && r.Contents? && r.header == Header(1, 1, |ps|, littleHost, zipped)
              && r.body.packets == AsRead(ps[..k])
              && (r.body.complete <==> n == HEADER_LEN + Boundary(z, zipped, ps, k))
  {
    var h := DumpHeader(|ps|, littleHost, zipped);
    HeaderRoundTrip(h);
    var head, body := HeaderToBytes(h).value, EntriesBytes(z, zipped, ps);
    var file := DumpFile(z, littleHost, zipped, zipped, ps)[..n];
    if n < HEADER_LEN {
      assert |file[..Min(HEADER_LEN, |file|)]| < HEADER_LEN;
    } else {
      assert file[..HEADER_LEN] == head;
      var whole := DumpFile(z, littleHost, zipped, zipped, ps);
      assert whole[HEADER_LEN..] == body;
      assert file[HEADER_LEN..] == whole[HEADER_LEN..][..n - HEADER_LEN];
      TruncatedBody(z, zipped, littleHost, ps, n - HEADER_LEN);
    }
  }

  /** The header of a dump, field by field, and its packet count in bytes 8 to 11 of the file. */
  lemma DumpedHeader(z: Zlib, littleHost: bool, flag: bool, zipped: bool, ps: seq<Packet>)
    requires AllFit(z, zipped, ps) && |ps| < 0x1_0000_0000
    ensures var file := DumpFile(z, littleHost, flag, zipped, ps);
            && ReadFile(z, file).Contents?
            && var h := ReadFile(z, file).header;
               && h.major == 1 && h.minor == 1 && h.numPackets == |ps|
               && h.littleEndian == littleHost && h.compressed == flag
               && |file| >= 12
               && file[8] == |ps| % 256 && file[9] == |ps| / 256 % 256
               && file[10] == |ps| / 65536 % 256 && file[11] == |ps| / 16777216
  {
    var h := DumpHeader(|ps|, littleHost, flag);
    var file := DumpFile(z, littleHost, flag, zipped, ps);
    HeaderRoundTrip(h);
    HeaderLayout(h);
    assert file[..HEADER_LEN] == HeaderToBytes(h).value;
  }

  /** Round trip: a dump reads back whole, in either compression mode and host byte order. */
  lemma DumpReadsBack(z: Zlib, littleHost: bool, zipped: bool, ps: seq<Packet>)
    requires (zipped ==> z.Inverse()) && AllFit(z, zipped, ps) && |ps| < 0x1_0000_0000
    requires forall i :: 0 <= i < |ps| ==> ps[i].little == littleHost
    ensures ReadFile(z, DumpFile(z, littleHost, zipped, zipped, ps)) ==
            Contents(Header(1, 1, |ps|, littleHost, zipped), Body(AsRead(ps), true))
  {
    DumpReadsBackIff(z, littleHost, zipped, zipped, ps);
  }

  // ---------------------------------------------------------------------
  // Dumping what was read: byte order and compression mode
  // ---------------------------------------------------------------------

  lemma {:induction false} ReadPacketsHaveDefaultOrder(z: Zlib, zipped: bool, little: bool, body: Bytes)
    ensures forall i :: 0 <= i < |ReadBody(z, zipped, little, body).packets| ==>
              ReadBody(z, zipped, little, body).packets[i].little
    decreases |body|
  {
    if |body| < 8 {
    } else {
      ReadPacketsHaveDefaultOrder(z, zipped, little, body[FirstEntryEnd(body, little)..]);
    }
  }

  /** On a little-endian host a capture that was read can be dumped in either mode and read again. */
  lemma ConvertOnLittleHost(z: Zlib, file: Bytes, zipped: bool)
    requires ReadFile(z, file).Contents?
    requires var ps := ReadFile(z, file).body.packets;
             (zipped ==> z.Inverse()) && AllFit(z, zipped, ps) && |ps| < 0x1_0000_0000
    ensures var ps := ReadFile(z, file).body.packets;
            ReadFile(z, DumpFile(z, true, zipped, zipped, ps)) ==
            Contents(Header(1, 1, |ps|, true, zipped), Body(ps, true))
  {
    var r := ReadFile(z, file);
    ReadPacketsHaveDefaultOrder(z, r.header.compressed, r.header.littleEndian,
                                file[Min(HEADER_LEN, |file|)..]);
    DumpReadsBack(z, true, zipped, r.body.packets);
    assert AsRead(r.body.packets) == r.body.packets;
  }

  /** A number whose four bytes read the same from both ends. */
  predicate Palindrome(n: U32) {
    U32Bytes(n, true) == U32Bytes(n, false)
  }

  lemma SwappedReadIsSameIffPalindrome(n: U32)
    ensures U32Of(U32Bytes(n, true), false) == n <==> Palindrome(n)
  {
    U32RoundTrip(n, false);
    BytesRoundTrip(U32Bytes(n, true), false);
  }

  predicate Symmetric(p: Packet)
    requires |p.data| < 0x1_0000_0000
  {
    Palindrome(p.stamp) && Palindrome(|p.data|)
  }

  lemma FrontReadInOtherOrder(z: Zlib, p: Packet, rest: Bytes, q: Packet)
    requires p.little && Fits(z, false, p)
    requires var body := EntryBytes(z, false, p) + rest;
             EntryFromBytes(z, false, false, body[..FirstEntryEnd(body, false)]) == Ok(q)
    ensures q.stamp == U32Of(U32Bytes(p.stamp, true), false)
    ensures |q.data| == U32Of(U32Bytes(|p.data|, true), false)
  {}

  /**
   On a big-endian host the packets read from a file are still written little-endian under a
   header that says big-endian.  Uncompressed, the result reads back the same exactly when
   every timestamp and every length is the same in both byte orders.
   */
  lemma {:induction false} RedumpOnBigHostIffSymmetric(z: Zlib, ps: seq<Packet>)
    requires AllFit(z, false, ps)
    requires forall i :: 0 <= i < |ps| ==> ps[i].little
    ensures ReadBody(z, false, false, EntriesBytes(z, false, ps)) == Body(ps, true)
            <==> forall i :: 0 <= i < |ps| ==> Symmetric(ps[i])
  {
    if ps == [] {
    } else {
      var p, rest := ps[0], EntriesBytes(z, false, ps[1..]);
      var body := EntryBytes(z, false, p) + rest;
      RedumpOnBigHostIffSymmetric(z, ps[1..]);
      SwappedReadIsSameIffPalindrome(p.stamp);
      SwappedReadIsSameIffPalindrome(|p.data|);
      assert ps == [p] + ps[1..];
      if Symmetric(p) {
        var big := p.(little := false);
        assert EntryBytes(z, false, big) == EntryBytes(z, false, p);
        ReadFront(z, false, big, rest);
      } else if ReadBody(z, false, false, body) == Body(ps, true) {
        FrontReadInOtherOrder(z, p, rest, p);
        assert false;
      }
    }
  }

  /** Stamp and written length of a packet read the same from both ends. */
  predicate SymmetricEntry(z: Zlib, zipped: bool, p: Packet)
    requires Fits(z, zipped, p)
  {
    Palindrome(p.stamp) && Palindrome(|Compress(z, zipped, p.data)|)
  }

  lemma SymmetricEntryBytes(z: Zlib, zipped: bool, p: Packet)
    requires Fits(z, zipped, p) && p.little && SymmetricEntry(z, zipped, p)
    ensures EntryBytes(z, zipped, p.(little := false)) == EntryBytes(z, zipped, p)
  {}

  /** In either compression mode, symmetric stamps and written lengths survive a big-endian host. */
  lemma {:induction false} SymmetricRedumpReadsBack(z: Zlib, zipped: bool, ps: seq<Packet>)
    requires (zipped ==> z.Inverse()) && AllFit(z, zipped, ps)
    requires forall i :: 0 <= i < |ps| ==> ps[i].little && SymmetricEntry(z, zipped, ps[i])
    ensures ReadBody(z, zipped, false, EntriesBytes(z, zipped, ps)) == Body(ps, true)
  {
    if ps == [] {
    } else {
      var p, rest := ps[0], EntriesBytes(z, zipped, ps[1..]);
      SymmetricRedumpReadsBack(z, zipped, ps[1..]);
      SymmetricEntryBytes(z, zipped, p);
      hide EntryBytes, SymmetricEntry, ReadBody, Compress;
      ReadFront(z, zipped, p.(little := false), rest);
      assert ps == [p] + ps[1..];
    }
  }

  /** A one-byte payload has no symmetric length: this packet is lost on a big-endian host. */
  lemma RedumpOnBigHostExample(z: Zlib) returns (p: Packet)
    ensures p.little && Fits(z, false, p)
    ensures ReadBody(z, false, false, EntriesBytes(z, false, [p])) != Body([p], true)
  {
    p := Packet([1], 0, true);
    RedumpOnBigHostIffSymmetric(z, [p]);
    assert U32Bytes(1, true)[0] == 1 && U32Bytes(1, false)[0] == 0;
    assert !Symmetric([p][0]);
  }

  function Zipped(z: Zlib, ps: seq<Packet>): (qs: seq<Packet>)
    ensures |qs| == |ps|
    ensures forall i :: 0 <= i < |ps| ==> qs[i] == ps[i].(data := z.compress(ps[i].data))
  {
    seq(|ps|, i requires 0 <= i < |ps| => ps[i].(data := z.compress(ps[i].data)))
  }

  lemma {:induction false} ZippedEntries(z: Zlib, ps: seq<Packet>)
    requires AllFit(z, true, ps)
    ensures AllFit(z, false, Zipped(z, ps))
    ensures EntriesBytes(z, true, ps) == EntriesBytes(z, false, Zipped(z, ps))
  {
    if ps == [] {
    } else {
      ZippedEntries(z, ps[1..]);
      assert Zipped(z, ps)[1..] == Zipped(z, ps[1..]);
      assert EntryBytes(z, true, ps[0]) == EntryBytes(z, false, Zipped(z, ps)[0]);
    }
  }

  /**
   Reading a compressed file into a capture created uncompressed leaves the flag and the
   helper in disagreement; a dump from there reads back as the compressed payloads.
   */
  lemma DumpWithWrongFlag(z: Zlib, littleHost: bool, ps: seq<Packet>)
    requires AllFit(z, true, ps) && |ps| < 0x1_0000_0000
    requires forall i :: 0 <= i < |ps| ==> ps[i].little == littleHost
    ensures ReadFile(z, DumpFile(z, littleHost, false, true, ps)) ==
            Contents(Header(1, 1, |ps|, littleHost, false), Body(AsRead(Zipped(z, ps)), true))
  {
    ZippedEntries(z, ps);
    DumpReadsBack(z, littleHost, false, Zipped(z, ps));
  }

  /** What the helper wrote for this payload, the reader's mode turns back into it. */
  predicate Recovered(z: Zlib, flag: bool, zipped: bool, data: Bytes) {
    Decompress(z, flag, Compress(z, zipped, data)) == Some(data)
  }

  lemma {:induction false} BodyReadsBackIff(z: Zlib, flag: bool, zipped: bool, little: bool, ps: seq<Packet>)
    requires AllFit(z, zipped, ps)
    requires forall i :: 0 <= i < |ps| ==> ps[i].little == little
    ensures ReadBody(z, flag, little, EntriesBytes(z, zipped, ps)) == Body(AsRead(ps), true)
            <==> forall i :: 0 <= i < |ps| ==> Recovered(z, flag, zipped, ps[i].data)
  {
    if ps == [] {
      assert AsRead(ps) == [];
    } else {
      var rest := EntriesBytes(z, zipped, ps[1..]);
      ReadFrontAs(z, flag, zipped, ps[0], rest);
      BodyReadsBackIff(z, flag, zipped, little, ps[1..]);
      hide ReadBody, EntryBytes, Compress, Decompress;
      PrependMatches(ps, ReadBody(z, flag, little, rest));
      assert ps == [ps[0]] + ps[1..];
    }
  }

  lemma ReadFrontAs(z: Zlib, flag: bool, zipped: bool, p: Packet, rest: Bytes)
    requires Fits(z, zipped, p)
    ensures ReadBody(z, flag, p.little, EntryBytes(z, zipped, p) + rest) ==
              match Decompress(z, flag, Compress(z, zipped, p.data))
              case None => Body([], false)
              case Some(data) => Prepend([Packet(data, p.stamp, true)], ReadBody(z, flag, p.little, rest))
  {
    hide EntryFromBytes, Compress, Decompress;
    FrontEntryRead(z, flag, zipped, p, rest);
  }

  lemma PrependMatches(ps: seq<Packet>, rest: Body)
    requires ps != []
    ensures forall q :: Prepend([q], rest) == Body(AsRead(ps), true)
              <==> q == ps[0].(little := true) && rest == Body(AsRead(ps[1..]), true)
  {
    var tail := AsRead(ps[1..]);
    assert AsRead(ps) == [ps[0].(little := true)] + tail;
    forall q
      ensures Prepend([q], rest) == Body(AsRead(ps), true)
              <==> q == ps[0].(little := true) && rest == Body(tail, true)
    {
      assert ([q] + rest.packets)[1..] == rest.packets && AsRead(ps)[1..] == tail;
    }
  }

  /**
   Whatever flag the header carries and whatever helper wrote the entries, a dump reads back
   whole exactly when every payload survives the one mode after the other; with flag and helper
   in agreement, that is always.
   */
  lemma DumpReadsBackIff(z: Zlib, littleHost: bool, flag: bool, zipped: bool, ps: seq<Packet>)
    requires AllFit(z, zipped, ps) && |ps| < 0x1_0000_0000
    requires forall i :: 0 <= i < |ps| ==> ps[i].little == littleHost
    ensures ReadFile(z, DumpFile(z, littleHost, flag, zipped, ps)) ==
              Contents(Header(1, 1, |ps|, littleHost, flag), Body(AsRead(ps), true))
            <==> forall i :: 0 <= i < |ps| ==> Recovered(z, flag, zipped, ps[i].data)
    ensures flag == zipped && (zipped ==> z.Inverse()) ==>
              forall i :: 0 <= i < |ps| ==> Recovered(z, flag, zipped, ps[i].data)
  {
    var file := DumpFile(z, littleHost, flag, zipped, ps);
    HeaderRoundTrip(DumpHeader(|ps|, littleHost, flag));
    BodyReadsBackIff(z, flag, zipped, littleHost, ps);
    assert file[..HEADER_LEN] == HeaderToBytes(DumpHeader(|ps|, littleHost, flag)).value;
    assert file[HEADER_LEN..] == EntriesBytes(z, zipped, ps);
  }

  /** A compressor that marks its output, and a decompressor that insists on the mark. */
  const MARKING := Zlib(x => [7] + x, y => if |y| > 0 && y[0] == 7 then Some(y[1..]) else None)

  /** Either disagreement of flag and helper breaks the round trip of this one-packet capture. */
  lemma WrongFlagExample(littleHost: bool) returns (ps: seq<Packet>)
    ensures MARKING.Inverse() && |ps| == 1 && ps[0].little == littleHost
    ensures AllFit(MARKING, true, ps) && AllFit(MARKING, false, ps)
    ensures ReadFile(MARKING, DumpFile(MARKING, littleHost, false, true, ps)) !=
            Contents(Header(1, 1, 1, littleHost, false), Body(AsRead(ps), true))
    ensures ReadFile(MARKING, DumpFile(MARKING, littleHost, true, false, ps)) !=
            Contents(Header(1, 1, 1, littleHost, true), Body(AsRead(ps), true))
  {
    ps := [Packet([1], 0, littleHost)];
    assert forall x: Bytes :: ([7] + x)[1..] == x;
    DumpReadsBackIff(MARKING, littleHost, false, true, ps);
    DumpReadsBackIff(MARKING, littleHost, true, false, ps);
    assert !Recovered(MARKING, false, true, ps[0].data) && !Recovered(MARKING, true, false, ps[0].data);
  }

  // ---------------------------------------------------------------------
  // A dump that raises
  // ---------------------------------------------------------------------

  /** How many packets precede the first whose length does not fit its field. */
  function FitCount(z: Zlib, zipped: bool, ps: seq<Packet>): (k: nat)
    ensures k <= |ps|
    ensures forall i :: 0 <= i < k ==> Fits(z, zipped, ps[i])
    ensures k < |ps| ==> !Fits(z, zipped, ps[k])
  {
    if ps == [] || !Fits(z, zipped, ps[0]) then 0 else 1 + FitCount(z, zipped, ps[1..])
  }

  lemma {:induction false} FitCountFits(z: Zlib, zipped: bool, ps: seq<Packet>)
    ensures AllFit(z, zipped, ps[..FitCount(z, zipped, ps)])
  {
    if ps == [] || !Fits(z, zipped, ps[0]) {
    } else {
      FitCountFits(z, zipped, ps[1..]);
      var k := FitCount(z, zipped, ps);
      assert forall i :: 0 < i < k ==> ps[..k][i] == ps[1..][..k - 1][i - 1];
    }
  }

  /** What is on disk when a dump raised: nothing, or the header and the entries before the culprit. */
  function PartialFile(z: Zlib, littleHost: bool, flag: Option<bool>, zipped: bool, ps: seq<Packet>): Bytes {
    if flag.None? || |ps| >= 0x1_0000_0000 then []
    else
      FitCountFits(z, zipped, ps);
      HeaderToBytes(DumpHeader(|ps|, littleHost, flag.value)).value
      + EntriesBytes(z, zipped, ps[..FitCount(z, zipped, ps)])
  }

  /**
   The file left by a dump that met an oversized packet: its header still counts all packets, and
   it reads back without an error as exactly those before the first that does not fit.
   */
  lemma PartialFileReads(z: Zlib, littleHost: bool, zipped: bool, ps: seq<Packet>, k: nat)
    requires (zipped ==> z.Inverse()) && |ps| < 0x1_0000_0000
    requires forall i :: 0 <= i < |ps| ==> ps[i].little == littleHost
    requires k < |ps| && AllFit(z, zipped, ps[..k]) && !Fits(z, zipped, ps[k])
    ensures ReadFile(z, PartialFile(z, littleHost, Some(zipped), zipped, ps)) ==
            Contents(Header(1, 1, |ps|, littleHost, zipped), Body(AsRead(ps[..k]), true))
  {
    assert FitCount(z, zipped, ps) == k by {
      assert forall i :: 0 <= i < k ==> ps[..k][i] == ps[i];
    }
    var head := HeaderToBytes(DumpHeader(|ps|, littleHost, zipped)).value;
    var file := PartialFile(z, littleHost, Some(zipped), zipped, ps);
    HeaderRoundTrip(DumpHeader(|ps|, littleHost, zipped));
    BodyReadsBackIff(z, zipped, zipped, littleHost, ps[..k]);
    assert file[..HEADER_LEN] == head && file[HEADER_LEN..] == EntriesBytes(z, zipped, ps[..k]);
  }

  // ---------------------------------------------------------------------
  // The capture object
  // ---------------------------------------------------------------------

  class F1PacketCapture {
    const z: Zlib
    const littleHost: bool
    var packetHistory: seq<Packet>
    var isCompressed: Option<bool>
    var header: Header
    var zipped: bool

    /** The flag a dump writes agrees with the helper it compresses with. */
    predicate Coherent()
      reads this
    {
      isCompressed == Some(zipped)
    }

    predicate AllOwnOrder()
      reads this
    {
      forall i :: 0 <= i < |packetHistory| ==> packetHistory[i].little == littleHost
    }

    constructor Recording(z: Zlib, littleHost: bool, compressed: bool)
      ensures this.z == z && this.littleHost == littleHost
      ensures packetHistory == [] && Coherent() && AllOwnOrder() && zipped == compressed
      ensures header == Header(1, 1, 0, littleHost, compressed)
    {
      this.z, this.littleHost := z, littleHost;
      packetHistory, isCompressed, zipped := [], Some(compressed), compressed;
      header := DumpHeader(0, littleHost, compressed);
    }

    /** The state the file constructor calls ReadFromFile in; the header is a placeholder. */
    constructor ForFile(z: Zlib, littleHost: bool)
      ensures this.z == z && this.littleHost == littleHost
      ensures packetHistory == [] && isCompressed == None && !zipped
      ensures header == Header(1, 1, 0, littleHost, false)
    {
      this.z, this.littleHost := z, littleHost;
      packetHistory, isCompressed, zipped := [], None, false;
      header := DumpHeader(0, littleHost, false);
    }

    method SetCompressed(compressed: bool)
      modifies this`isCompressed, this`zipped
      ensures Coherent() && zipped == compressed
    {
      isCompressed, zipped := Some(compressed), compressed;
    }

    method Add(data: Bytes, stamp: U32)
      modifies this`packetHistory, this`header
      ensures packetHistory == old(packetHistory) + [Packet(data, stamp, littleHost)]
      ensures header == old(header).(numPackets := |packetHistory|)
      ensures old(AllOwnOrder()) ==> AllOwnOrder()
    {
      packetHistory := packetHistory + [Packet(data, stamp, littleHost)];
      header := header.(numPackets := |packetHistory|);
    }

    method Clear()
      modifies this`packetHistory, this`header
      ensures packetHistory == [] && header == old(header).(numPackets := 0)
    {
      packetHistory := [];
      header := header.(numPackets := 0);
    }

    /** `file` is what is left on disk: None when no file is opened, partial when writing raises. */
    method DumpToFile() returns (file: Option<Bytes>, r: Result<nat, Error>)
      ensures packetHistory == [] <==> file.None?
      ensures packetHistory == [] ==> r == Ok(0)
      ensures packetHistory != [] ==>
                (r.Ok? <==> isCompressed.Some? && |packetHistory| < 0x1_0000_0000 && AllFit(z, zipped, packetHistory))
      ensures AllFit(z, zipped, packetHistory) <==>
                forall i :: 0 <= i < |packetHistory| ==>
                  |if zipped then z.compress(packetHistory[i].data) else packetHistory[i].data| < 0x1_0000_0000
      ensures packetHistory != [] && r.Ok? ==>
                && r.value == |packetHistory|
                && file == Some(DumpFile(z, littleHost, isCompressed.value, zipped, packetHistory))
      ensures r.Err? ==> r.error == if isCompressed.None? then TypeError else StructError
      ensures r.Err? ==> file == Some(PartialFile(z, littleHost, isCompressed, zipped, packetHistory))
      ensures packetHistory != [] && r.Ok? ==>
                && ReadFile(z, file.value).Contents?
                && var h := ReadFile(z, file.value).header;
                   && h.major == 1 && h.minor == 1 && h.numPackets == |packetHistory|
                   && h.littleEndian == littleHost && h.compressed == isCompressed.value
      ensures packetHistory != [] && r.Ok? && Coherent() && AllOwnOrder() && (zipped ==> z.Inverse()) ==>
                ReadFile(z, file.value) ==
                Contents(Header(1, 1, |packetHistory|, littleHost, zipped), Body(AsRead(packetHistory), true))
    {
      if |packetHistory| == 0 {
        return None, Ok(0);
      }
      if isCompressed.None? {
        return Some([]), Err(TypeError);
      }
      var h := DumpHeader(|packetHistory|, littleHost, isCompressed.value);
      var headerBytes := HeaderToBytes(h);
      if headerBytes.Err? {
        return Some([]), Err(StructError);
      }
      var entries, complete := WriteEntries(z, zipped, packetHistory);
      file := Some(headerBytes.value + entries);
      if !complete {
        return file, Err(StructError);
      }
      DumpedHeader(z, littleHost, isCompressed.value, zipped, packetHistory);
      if isCompressed == Some(zipped) && AllOwnOrder() {
        DumpReadsBackIff(z, littleHost, zipped, zipped, packetHistory);
      }
      r := Ok(|packetHistory|);
    }

    /** Packets are appended to the history as they are read, so an error leaves the earlier ones. */
    method ReadFromFile(file: Bytes) returns (ok: bool)
      modifies this`packetHistory, this`header, this`zipped
      ensures ReadFile(z, file).BadHeader? ==>
                !ok && packetHistory == old(packetHistory) && header == old(header) && zipped == old(zipped)
      ensures ReadFile(z, file).Contents? ==>
                var c := ReadFile(z, file);
                && header == c.header && zipped == c.header.compressed
                && packetHistory == old(packetHistory) + c.body.packets
                && ok == c.body.complete
    {
      var pos := Min(HEADER_LEN, |file|);
      var h := HeaderFromBytes(file[..pos]);
      if h.Err? {
        return false;
      }
      header := h.value;
      zipped := header.compressed;
      var packets, complete := ReadEntries(z, zipped, header.littleEndian, file, pos);
      packetHistory := packetHistory + packets;
      return complete;
    }
  }

  /** A file argument: the name may be empty, and only a real name is ever opened. */
  datatype FileArg = EmptyName | Named(content: Bytes)

  /**
   Making a capture, from a compression mode or from a file but not both; None when that raises.
   What the file constructor leaves unset has been read by the time anyone sees the object.  An
   empty file name passes for a file and is not read: the capture has no compression flag, which
   its placeholder header shows as false.
   */
  method Open(z: Zlib, littleHost: bool, compressed: Option<bool>, file: Option<FileArg>)
      returns (r: Option<F1PacketCapture>)
    ensures r.Some? <==>
              && compressed.Some? != file.Some?
              && (file.Some? && file.value.Named? ==>
                    ReadFile(z, file.value.content).Contents? && ReadFile(z, file.value.content).body.complete)
    ensures r.Some? ==> fresh(r.value) && r.value.z == z && r.value.littleHost == littleHost
    ensures r.Some? && compressed.Some? ==>
              && r.value.packetHistory == [] && r.value.Coherent() && r.value.AllOwnOrder()
              && r.value.zipped == compressed.value && r.value.header == Header(1, 1, 0, littleHost, compressed.value)
    ensures r.Some? && file.Some? && file.value.EmptyName? ==>
              r.value.packetHistory == [] && r.value.isCompressed == None && !r.value.zipped
    ensures r.Some? && file.Some? && file.value.Named? ==>
              var c := ReadFile(z, file.value.content);
              && r.value.packetHistory == c.body.packets && r.value.header == c.header
              && r.value.isCompressed == None && r.value.zipped == c.header.compressed
  {
    if compressed.Some? == file.Some? {
      return None;
    }
    if compressed.Some? {
      var recording := new F1PacketCapture.Recording(z, littleHost, compressed.value);
      return Some(recording);
    }
    var reading := new F1PacketCapture.ForFile(z, littleHost);
    if file.value.EmptyName? {
      return Some(reading);
    }
    var ok := reading.ReadFromFile(file.value.content);
    r := if ok then Some(reading) else None;
  }

  /** The read loop: the packets it appends, and whether it ends without raising. */
  method ReadEntries(z: Zlib, zipped: bool, little: bool, file: Bytes, start: nat)
      returns (packets: seq<Packet>, complete: bool)
    requires start <= |file|
    ensures Body(packets, complete) == ReadBody(z, zipped, little, file[start..])
  {
    hide ReadBody, EntryFromBytes, U32Of;
    packets := [];
    var pos := start;
    ghost var all := ReadBody(z, zipped, little, file[start..]);
    while true
      invariant start <= pos <= |file|
      invariant Prepend(packets, ReadBody(z, zipped, little, file[pos..])) == all
      decreases |file| - pos
    {
      var entryHeader := file[pos..Min(pos + 8, |file|)];
      if |entryHeader| < 8 {
        ShortTail(z, zipped, little, file[pos..]);
        PrependNothing(packets, |entryHeader| == 0);
        return packets, |entryHeader| == 0;
      }
      var length := U32Of(entryHeader[4..], little);
      var end := Min(pos + 8 + length, |file|);
      var entryData := entryHeader + file[pos + 8..end];
      ReadBodyAt(z, zipped, little, file, pos);
      var entry := EntryFromBytes(z, zipped, little, entryData);
      if entry.Err? {
        PrependNothing(packets, false);
        return packets, false;
      }
      PrependTwice(packets, entry.value, ReadBody(z, zipped, little, file[end..]));
      packets := packets + [entry.value];
      pos := end;
    }
  }

  lemma ShortTail(z: Zlib, zipped: bool, little: bool, tail: Bytes)
    requires |tail| < 8
    ensures ReadBody(z, zipped, little, tail) == Body([], |tail| == 0)
  {}

  /** One turn of the read loop, at a position in the file. */
  lemma ReadBodyAt(z: Zlib, zipped: bool, little: bool, file: Bytes, pos: nat)
    requires pos + 8 <= |file|
    ensures var entryHeader := file[pos..Min(pos + 8, |file|)];
            var end := Min(pos + 8 + U32Of(entryHeader[4..], little), |file|);
            var entry := EntryFromBytes(z, zipped, little, entryHeader + file[pos + 8..end]);
            ReadBody(z, zipped, little, file[pos..]) ==
            if entry.Err? then Body([], false)
            else Prepend([entry.value], ReadBody(z, zipped, little, file[end..]))
  {
    var body, entryHeader := file[pos..], file[pos..pos + 8];
    assert body[4..8] == entryHeader[4..];
    var end := FirstEntryEnd(body, little);
    assert body[..end] == entryHeader + file[pos + 8..pos + end];
    assert body[end..] == file[pos + end..];
  }

  /** The write loop: every entry, or all before the first whose length does not fit. */
  method WriteEntries(z: Zlib, zipped: bool, ps: seq<Packet>) returns (out: Bytes, complete: bool)
    ensures complete <==> AllFit(z, zipped, ps)
    ensures complete ==> out == EntriesBytes(z, zipped, ps)
    ensures AllFit(z, zipped, ps[..FitCount(z, zipped, ps)])
    ensures out == EntriesBytes(z, zipped, ps[..FitCount(z, zipped, ps)])
  {
    out := [];
    var i := 0;
    while i < |ps|
      invariant 0 <= i <= |ps|
      invariant AllFit(z, zipped, ps[..i])
      invariant out == EntriesBytes(z, zipped, ps[..i])
    {
      if !Fits(z, zipped, ps[i]) {
        FirstUnfit(z, zipped, ps, i);
        return out, false;
      }
      EntriesAppend(z, zipped, ps[..i], ps[i]);
      assert ps[..i] + [ps[i]] == ps[..i + 1];
      out := out + EntryBytes(z, zipped, ps[i]);
      i := i + 1;
    }
    assert ps[..i] == ps;
    FirstUnfit(z, zipped, ps, i);
    complete := true;
  }

  lemma {:induction false} FirstUnfit(z: Zlib, zipped: bool, ps: seq<Packet>, i: nat)
    requires i <= |ps| && AllFit(z, zipped, ps[..i])
    requires i < |ps| ==> !Fits(z, zipped, ps[i])
    ensures FitCount(z, zipped, ps) == i
  {
    if ps == [] {
    } else if i == 0 {
    } else {
      assert Fits(z, zipped, ps[..i][0]);
      assert ps[..i][1..] == ps[1..][..i - 1];
      FirstUnfit(z, zipped, ps[1..], i - 1);
    }
  }

  lemma {:induction false} EntriesAppend(z: Zlib, zipped: bool, ps: seq<Packet>, p: Packet)
    requires AllFit(z, zipped, ps) && Fits(z, zipped, p)
    ensures AllFit(z, zipped, ps + [p])
    ensures EntriesBytes(z, zipped, ps + [p]) == EntriesBytes(z, zipped, ps) + EntryBytes(z, zipped, p)
  {
    hide EntryBytes, Fits;
    if ps == [] {
      assert EntriesBytes(z, zipped, [p]) == EntryBytes(z, zipped, p) + EntriesBytes(z, zipped, []);
    } else {
      var e, rest := EntryBytes(z, zipped, ps[0]), EntriesBytes(z, zipped, ps[1..]);
      EntriesAppend(z, zipped, ps[1..], p);
      assert (ps + [p])[1..] == ps[1..] + [p];
      assert e + (rest + EntryBytes(z, zipped, p)) == e + rest + EntryBytes(z, zipped, p);
    }
  }
}
