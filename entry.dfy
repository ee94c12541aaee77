/**
 * The on-arena layout of one trace entry: a fixed 56-byte header (the
 * LP64 layout of Log::Header), the argument payload, and an 8-byte
 * trailer repeating the entry id followed by the end marker.
 */
module Entry {
  import opened Bytes

  const DEFAULT_BUFFER_SIZE: u32 := 20 * 1024 * 1024
  const MARKER: u64 := 0xaf1c_feef_beef_ae0d
  const VERSION: u32 := 1
  const START_PATTERN: u32 := 0xbeed_face
  const END_PATTERN: u32 := 0xfade_beef

  /** The two markers differ and are not neighbours, so skipping one id never lands on the other. */
  lemma MarkersApart()
    ensures START_PATTERN != END_PATTERN
    ensures Wrap32(START_PATTERN as int + 1) != END_PATTERN && Wrap32(END_PATTERN as int + 1) != START_PATTERN
  {
  }

  /** sizeof(Header) and sizeof(Trailer) on a 64-bit little-endian host. */
  const HEADER_SIZE: nat := 56
  const TRAILER_SIZE: nat := 8

  /** LOG_MAX_LOG_TRACE_LINE: the longest entry, header and trailer included. */
  const MAX_TRACE_LINE: nat := 4096

  /** struct timespec: seconds and nanoseconds, both 64-bit. */
  datatype Timespec = Timespec(sec: u64, nsec: u64)

  /**
   * Log::Header. The format and function name are pointers into the
   * program image, kept here as opaque 64-bit handles.
   */
  datatype Header = Header(pattern: u32, location: u32, id: u32, threadId: u32,
                           format: u64, functionName: u64, lineNumber: u16, length: u16,
                           tag: u8, unused: u24, timestamp: Timespec)

  /** The field widths of Log::Header, in declaration order. */
  const HEADER_WIDTHS: seq<nat> := [4, 4, 4, 4, 8, 8, 2, 2, 1, 3, 8, 8]

  /** The fields of a header as numbers, in declaration order. */
  function FieldsOf(h: Header): (vs: seq<nat>)
    ensures |vs| == |HEADER_WIDTHS|
  {
    [h.pattern, h.location, h.id, h.threadId, h.format, h.functionName,
     h.lineNumber, h.length, h.tag, h.unused, h.timestamp.sec, h.timestamp.nsec]
  }

  /** The header whose fields are vs. */
  function FromFields(vs: seq<nat>): Header
    requires Fit(vs, HEADER_WIDTHS)
  {
    Pow256Widths();
    Header(vs[0], vs[1], vs[2], vs[3], vs[4], vs[5], vs[6], vs[7], vs[8], vs[9], Timespec(vs[10], vs[11]))
  }

  /** The header as memcpy lays it out: each field little-endian at its offset. */
  function HeaderBytes(h: Header): (b: seq<u8>)
    ensures |b| == HEADER_SIZE
  {
    Pow256Widths();
    Pack(FieldsOf(h), HEADER_WIDTHS)
  }

  /** The header a 56-byte read denotes (the cast of the scratch buffer to Header *). */
  function ParseHeader(b: seq<u8>): (h: Header)
    requires |b| == HEADER_SIZE
  {
    UnpackFit(b, HEADER_WIDTHS);
    FromFields(Unpack(b, HEADER_WIDTHS))
  }

  /** Each value fits the width it is laid out in. */
  predicate Fit(vs: seq<nat>, ws: seq<nat>) {
    |vs| == |ws| && forall k :: 0 <= k < |vs| ==> vs[k] < Pow256(ws[k])
  }

  function Sum(ws: seq<nat>): nat {
    if ws == [] then 0 else ws[0] + Sum(ws[1..])
  }

  /** Values laid out end to end, each little-endian in its own width. */
  function Pack(vs: seq<nat>, ws: seq<nat>): (b: seq<u8>)
    requires |vs| == |ws|
    ensures |b| == Sum(ws)
  {
    if ws == [] then [] else LE(vs[0], ws[0]) + Pack(vs[1..], ws[1..])
  }

  /** The values of consecutive little-endian fields of the given widths. */
  function Unpack(b: seq<u8>, ws: seq<nat>): (vs: seq<nat>)
    requires |b| == Sum(ws)
    ensures |vs| == |ws|
  {
    if ws == [] then [] else [FromLE(b[..ws[0]])] + Unpack(b[ws[0]..], ws[1..])
  }

  /** Each unpacked value fits its width. */
  lemma {:induction false} UnpackFit(b: seq<u8>, ws: seq<nat>)
    requires |b| == Sum(ws)
    ensures Fit(Unpack(b, ws), ws)
  {
    if ws != [] {
      UnpackFit(b[ws[0]..], ws[1..]);
      var vs := Unpack(b, ws);
      assert vs[1..] == Unpack(b[ws[0]..], ws[1..]);
      forall k | 0 <= k < |vs| ensures vs[k] < Pow256(ws[k]) {
        if k > 0 {
          assert vs[k] == vs[1..][k - 1];
        }
      }
    }
  }

  /** Unpacking a layout gives back the values laid out. */
  lemma {:induction false} UnpackPack(vs: seq<nat>, ws: seq<nat>)
    requires Fit(vs, ws)
    ensures Unpack(Pack(vs, ws), ws) == vs
  {
    if ws != [] {
      var b := Pack(vs, ws);
      assert b[..ws[0]] == LE(vs[0], ws[0]) && b[ws[0]..] == Pack(vs[1..], ws[1..]);
      FromLEOfLE(vs[0], ws[0]);
      assert Fit(vs[1..], ws[1..]) by {
        forall k | 0 <= k < |vs| - 1 ensures vs[1..][k] < Pow256(ws[1..][k]) {
          assert vs[k + 1] < Pow256(ws[k + 1]);
        }
      }
      UnpackPack(vs[1..], ws[1..]);
    }
  }

  /** Packing the unpacked values gives back the bytes. */
  lemma {:induction false} PackUnpack(b: seq<u8>, ws: seq<nat>)
    requires |b| == Sum(ws)
    ensures Pack(Unpack(b, ws), ws) == b
  {
    if ws != [] {
      var vs := Unpack(b, ws);
      assert vs[1..] == Unpack(b[ws[0]..], ws[1..]);
      LEOfFromLE(b[..ws[0]]);
      PackUnpack(b[ws[0]..], ws[1..]);
      assert b == b[..ws[0]] + b[ws[0]..];
    }
  }

  /** The start and end patterns as they lie in memory. */
  const START_BYTES: seq<u8> := [0xce, 0xfa, 0xed, 0xbe]
  const END_BYTES: seq<u8> := [0xef, 0xbe, 0xde, 0xfa]

  lemma MarkerBytes()
    ensures LE(START_PATTERN, 4) == START_BYTES && LE(END_PATTERN, 4) == END_BYTES
  {
  }

  /** The length field of a header read: two bytes at offset 34. */
  function LengthOf(b: seq<u8>): u16
    requires |b| == HEADER_SIZE
  {
    Pow256Widths();
    FromLE(b[34..36])
  }

  /** The id field of a header read: four bytes at offset 8. */
  function IdOf(b: seq<u8>): u32
    requires |b| == HEADER_SIZE
  {
    Pow256Widths();
    FromLE(b[8..12])
  }

  /** The format handle of a header read: eight bytes at offset 16. */
  function FormatOf(b: seq<u8>): u64
    requires |b| == HEADER_SIZE
  {
    Pow256Widths();
    FromLE(b[16..24])
  }

  /** The k-th unpacked value is the little-endian value of the k-th field's bytes. */
  lemma {:induction false} UnpackAt(b: seq<u8>, ws: seq<nat>, k: nat, o: nat)
    requires |b| == Sum(ws) && k < |ws| && o == Sum(ws[..k])
    ensures o + ws[k] <= |b| && Unpack(b, ws)[k] == FromLE(b[o..o + ws[k]])
  {
    if k == 0 {
      assert ws[..0] == [];
      assert b[..ws[0]] == b[0..ws[0]];
    } else {
      SumPrefix(ws, k);
      var rest := b[ws[0]..];
      var vs := Unpack(b, ws);
      assert vs == [FromLE(b[..ws[0]])] + Unpack(rest, ws[1..]);
      assert vs[k] == Unpack(rest, ws[1..])[k - 1];
      UnpackAt(rest, ws[1..], k - 1, o - ws[0]);
      SliceOfDrop(b, ws[0], o - ws[0], o - ws[0] + ws[k]);
    }
  }

  lemma SumPrefix(ws: seq<nat>, k: nat)
    requires 0 < k < |ws|
    ensures Sum(ws[..k]) == ws[0] + Sum(ws[1..][..k - 1]) && ws[1..][k - 1] == ws[k]
  {
    assert ws[..k][1..] == ws[1..][..k - 1];
  }

  lemma SliceOfDrop(b: seq<u8>, d: nat, i: nat, j: nat)
    requires d + j <= |b| && i <= j
    ensures b[d..][i..j] == b[d + i..d + j]
  {
  }

  /** The offsets of the pattern, id, format and length fields. */
  lemma FieldOffsets()
    ensures Sum(HEADER_WIDTHS) == HEADER_SIZE && Sum(HEADER_WIDTHS[..0]) == 0 && Sum(HEADER_WIDTHS[..2]) == 8
    ensures Sum(HEADER_WIDTHS[..4]) == 16 && Sum(HEADER_WIDTHS[..7]) == 34
  {
    assert HEADER_WIDTHS[..0] == [];
    assert HEADER_WIDTHS[..2] == [4, 4];
    assert HEADER_WIDTHS[..4] == [4, 4, 4, 4];
    PrefixSum7();
  }

  lemma PrefixSum7()
    ensures Sum(HEADER_WIDTHS[..7]) == 34
  {
    assert HEADER_WIDTHS[..7] == [4, 4, 4, 4, 8, 8, 2];
    assert Sum([4, 4, 4, 4, 8, 8, 2]) == 34;
  }

  /** The pattern field is START_PATTERN exactly when the first four bytes are START_BYTES. */
  lemma PatternOfRead(b: seq<u8>)
    requires |b| == HEADER_SIZE
    ensures ParseHeader(b).pattern == START_PATTERN <==> b[..4] == START_BYTES
  {
    FieldOffsets();
    UnpackFit(b, HEADER_WIDTHS);
    UnpackAt(b, HEADER_WIDTHS, 0, 0);
    MarkerBytes();
    FromLEOfLE(START_PATTERN, 4);
    LEOfFromLE(b[..4]);
    assert b[0..4] == b[..4];
  }

  /** The length field is LengthOf. */
  lemma LengthOfRead(b: seq<u8>)
    requires |b| == HEADER_SIZE
    ensures ParseHeader(b).length == LengthOf(b)
  {
    FieldOffsets();
    UnpackFit(b, HEADER_WIDTHS);
    UnpackAt(b, HEADER_WIDTHS, 7, 34);
  }

  /** The id field is IdOf. */
  lemma IdOfRead(b: seq<u8>)
    requires |b| == HEADER_SIZE
    ensures ParseHeader(b).id == IdOf(b)
  {
    FieldOffsets();
    UnpackFit(b, HEADER_WIDTHS);
    UnpackAt(b, HEADER_WIDTHS, 2, 8);
  }

  /** The format field is FormatOf. */
  lemma FormatOfRead(b: seq<u8>)
    requires |b| == HEADER_SIZE
    ensures ParseHeader(b).format == FormatOf(b)
  {
    FieldOffsets();
    UnpackFit(b, HEADER_WIDTHS);
    UnpackAt(b, HEADER_WIDTHS, 4, 16);
  }

  /** Log::Trailer: the entry id, then END_PATTERN. */
  function TrailerBytes(id: u32): (b: seq<u8>)
    ensures |b| == TRAILER_SIZE
  {
    LE(id, 4) + LE(END_PATTERN, 4)
  }

  /** The trailer closing the entry whose header was read: the id field's bytes, then END_BYTES. */
  lemma TrailerOfRead(b: seq<u8>)
    requires |b| == HEADER_SIZE
    ensures TrailerBytes(IdOf(b)) == b[8..12] + END_BYTES
  {
    LEOfFromLE(b[8..12]);
    MarkerBytes();
  }

  /** A whole entry as traceVargs copies it into the arena. */
  function EntryBytes(h: Header, payload: seq<u8>): (b: seq<u8>)
    ensures |b| == HEADER_SIZE + |payload| + TRAILER_SIZE
  {
    HeaderBytes(h) + payload + TrailerBytes(h.id)
  }

  /** Reading each field back from the laid-out header gives the header. */
  lemma ParseHeaderBytes(h: Header)
    ensures ParseHeader(HeaderBytes(h)) == h
  {
    Pow256Widths();
    UnpackPack(FieldsOf(h), HEADER_WIDTHS);
  }

  /** Every 56-byte read is the layout of the header it denotes. */
  lemma HeaderBytesOfParse(b: seq<u8>)
    requires |b| == HEADER_SIZE
    ensures HeaderBytes(ParseHeader(b)) == b
  {
    UnpackFit(b, HEADER_WIDTHS);
    FieldsOfFromFields(Unpack(b, HEADER_WIDTHS));
    PackUnpack(b, HEADER_WIDTHS);
  }

  lemma FieldsOfFromFields(vs: seq<nat>)
    requires Fit(vs, HEADER_WIDTHS)
    ensures FieldsOf(FromFields(vs)) == vs
  {
  }

}
