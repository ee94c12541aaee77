/**
 * What the logger's reading side computes, as functions of the arena's
 * bytes: entry validation (getLog), resynchronisation (getNextHeader),
 * printing one entry (printAtIndex), dumping a range (dumpRange), and
 * the id bookkeeping of the writing side (allocateId, cmpHeader).
 */
module LogSpec {
  import opened Wrappers
  import opened Bytes
  import opened Ring
  import opened StringFormat
  import opened Entry
  import opened FormatGrammar
  import Arith

  /** Collect::SPINS: how many times printAtIndex tries getLog when asked to retry. */
  const SPINS: nat := 10

  /** An arena the logger can work with: room for the longest entry, and the cursor headroom free. */
  predicate SizeOk(size: nat) {
    MAX_TRACE_LINE <= size && size + ROLLOVER_HEADROOM as nat <= UINT32_MAX as nat
  }

  predicate ArenaOk(a: seq<u8>) {
    SizeOk(|a|)
  }

  // ---------------------------------------------------------------- ids

  predicate IsMarker(x: u32) {
    x == START_PATTERN || x == END_PATTERN
  }

  /** The counter allocateId leaves behind: one on, or two on when one on is a marker. */
  function NextId(g: u32): (n: u32)
    ensures !IsMarker(n)
    ensures n == Wrap32(g + 1) || n == Wrap32(g + 2)
    ensures n == Wrap32(g + 2) <==> IsMarker(Wrap32(g + 1))
  {
    var n1 := Wrap32(g + 1);
    if IsMarker(n1) then Wrap32(n1 + 1) else n1
  }

  /** The ids handed out by n calls of allocateId starting from counter g. */
  function IdsFrom(g: u32, n: nat): (ids: seq<u32>)
    ensures |ids| == n
    decreases n
  {
    if n == 0 then [] else [g] + IdsFrom(NextId(g), n - 1)
  }

  /** Started off the markers, allocateId never hands out a marker value. */
  lemma {:induction false} IdsAvoidMarkers(g: u32, n: nat)
    requires !IsMarker(g)
    ensures forall k :: 0 <= k < n ==> !IsMarker(IdsFrom(g, n)[k])
    decreases n
  {
    if n > 0 {
      IdsAvoidMarkers(NextId(g), n - 1);
      forall k | 0 <= k < n ensures !IsMarker(IdsFrom(g, n)[k]) {
        if k > 0 {
          assert IdsFrom(g, n)[k] == IdsFrom(NextId(g), n - 1)[k - 1];
        }
      }
    }
  }

  /** indexInc(): 32-bit unsigned addition. */
  function IndexInc(index: u32, v: u32): (r: u32)
    ensures index + v <= UINT32_MAX ==> r == index + v
    ensures index + v > UINT32_MAX ==> r == index + v - 0x1_0000_0000
  {
    Wrap32(index + v)
  }

  // ---------------------------------------------------------------- cmpHeader

  /**
   * cmpHeader() as written: the difference of the ids as a C int, except
   * that when they are more than 0x7FFFFFFF apart both branches answer
   * (0xffffffff - larger) + smaller.
   */
  function CmpHeaderAsWritten(a: u32, b: u32): int {
    if a == b then 0
    else if a < b then
      if Wrap32(b - a) > 0x7FFF_FFFF then AsSigned32(Wrap32((0xFFFF_FFFF - b) + a)) else AsSigned32(Wrap32(a - b))
    else
      if Wrap32(a - b) > 0x7FFF_FFFF then AsSigned32(Wrap32((0xFFFF_FFFF - a) + b)) else AsSigned32(Wrap32(a - b))
  }

  /** Ids no more than 0x7FFFFFFF apart compare by their difference. */
  lemma CmpAsWrittenNear(a: u32, b: u32)
    requires -0x7FFF_FFFF <= a - b <= 0x7FFF_FFFF
    ensures CmpHeaderAsWritten(a, b) == a - b
  {
  }

  /** Ids further apart than 0x7FFFFFFF compare as non-negative, whichever comes first. */
  lemma CmpAsWrittenFar(a: u32, b: u32)
    requires a - b > 0x7FFF_FFFF || b - a > 0x7FFF_FFFF
    ensures CmpHeaderAsWritten(a, b) >= 0 && CmpHeaderAsWritten(b, a) >= 0
  {
  }

  /** Two distinct ids that compare equal: 0 and 0xFFFFFFFF. */
  lemma CmpAsWrittenEqualsDistinct()
    ensures CmpHeaderAsWritten(0, 0xFFFF_FFFF) == 0
  {
  }

  /** The same sign both ways round: 0xFFFFFFF0 after 5, and 5 after 0xFFFFFFF0. */
  lemma CmpAsWrittenNotAntisymmetric()
    ensures CmpHeaderAsWritten(0xFFFF_FFF0, 5) == 20 && CmpHeaderAsWritten(5, 0xFFFF_FFF0) == 20
  {
  }

  /**
   * The comparison the comments describe, in serial-number order: ids
   * within 0x7FFFFFFF compare by their difference, and ids further apart
   * are taken to have wrapped, the smaller one being the later.
   */
  function CmpIds(a: u32, b: u32): int {
    if a == b then 0
    else if a < b then
      if b - a > 0x7FFF_FFFF then a + 0x1_0000_0000 - b else a - b
    else
      if a - b > 0x7FFF_FFFF then a - b - 0x1_0000_0000 else a - b
  }

  /** CmpIds is zero exactly on equal ids, antisymmetric, and agrees with the difference nearby. */
  lemma CmpIdsOrder(a: u32, b: u32)
    ensures CmpIds(a, b) == 0 <==> a == b
    ensures CmpIds(a, b) == -CmpIds(b, a)
    ensures -0x7FFF_FFFF <= a - b <= 0x7FFF_FFFF ==> CmpIds(a, b) == a - b
    ensures CmpIds(a, b) == (a - b) % 0x1_0000_0000 || CmpIds(a, b) == (a - b) % 0x1_0000_0000 - 0x1_0000_0000
  {
  }

  /** The two differ only on ids further apart than 0x7FFFFFFF. */
  lemma CmpIdsNear(a: u32, b: u32)
    requires -0x7FFF_FFFF <= a - b <= 0x7FFF_FFFF
    ensures CmpIds(a, b) == CmpHeaderAsWritten(a, b)
  {
  }

  // ---------------------------------------------------------------- getLog

  /** The outcome of getLog's four checks, in the order it makes them. */
  datatype Verdict = Valid | BadPattern | BadLength | HeaderChanged | BadTrailer

  /**
   * getLog() at arena offset off: read the header, check the start
   * pattern and the length, read the whole entry, check that its header
   * is the one read first and that the trailer is {id, END_PATTERN}.
   */
  function Check(a: seq<u8>, off: nat): Verdict
    requires |a| > 0
  {
    Judge(a, off, Window(a, off, HEADER_SIZE))
  }

  /**
   * The four checks on the header bytes first read at off, each on the
   * bytes of the field it looks at (CheckOfHeader states them on the
   * parsed header).
   */
  function Judge(a: seq<u8>, off: nat, first: seq<u8>): Verdict
    requires |a| > 0 && |first| == HEADER_SIZE
  {
    var len := LengthOf(first);
    if first[..4] != START_BYTES then BadPattern
    else if len < HEADER_SIZE + TRAILER_SIZE || len > MAX_TRACE_LINE then BadLength
    else
      var full := Window(a, off, len);
      if full[..HEADER_SIZE] != first then HeaderChanged
      else if full[len - TRAILER_SIZE..] != first[8..12] + END_BYTES then BadTrailer
      else Valid
  }

  /** The header recorded at offset off. */
  function HeaderAt(a: seq<u8>, off: nat): Header
    requires |a| > 0
  {
    ParseHeader(Window(a, off, HEADER_SIZE))
  }

  /** The length field of the header recorded at offset off: how many bytes getLog returns. */
  function LengthAt(a: seq<u8>, off: nat): u16
    requires |a| > 0
  {
    LengthOf(Window(a, off, HEADER_SIZE))
  }

  /**
   * getLog's checks as the source states them, on the header the first
   * read denotes: its pattern field, its length field, the header bytes
   * of the whole entry, and the trailer built from its id field.
   */
  lemma CheckOfHeader(a: seq<u8>, off: nat)
    requires |a| > 0
    ensures var h := HeaderAt(a, off); var full := Window(a, off, h.length);
      Check(a, off) ==
        if h.pattern != START_PATTERN then BadPattern
        else if h.length < HEADER_SIZE + TRAILER_SIZE || h.length > MAX_TRACE_LINE then BadLength
        else if full[..HEADER_SIZE] != Window(a, off, HEADER_SIZE) then HeaderChanged
        else if full[h.length - TRAILER_SIZE..] != TrailerBytes(h.id) then BadTrailer
        else Valid
  {
    var first := Window(a, off, HEADER_SIZE);
    PatternOfRead(first);
    LengthOfRead(first);
    IdOfRead(first);
    TrailerOfRead(first);
  }

  /** The error counters and statistics the reading side keeps. */
  datatype Stats = Stats(hdrPatErr: nat, fullBufLenErr: nat, hdrLenErr: nat, hdrTailErr: nat,
                         nextHeaderFail: nat, printFall: nat, stringCorrupted: nat, collected: nat,
                         glide: u32, lastPrintedId: u32)

  const NoStats := Stats(0, 0, 0, 0, 0, 0, 0, 0, 0, 0)

  /** The counter a failed check increments; a passed check increments none. */
  function Tally(s: Stats, v: Verdict): Stats {
    match v
    case Valid => s
    case BadPattern => s.(hdrPatErr := s.hdrPatErr + 1)
    case BadLength => s.(fullBufLenErr := s.fullBufLenErr + 1)
    case HeaderChanged => s.(hdrLenErr := s.hdrLenErr + 1)
    case BadTrailer => s.(hdrTailErr := s.hdrTailErr + 1)
  }

  /** The first len bytes of a window are the window of len bytes. */
  lemma WindowPrefix(a: seq<u8>, off: nat, n: nat, m: nat)
    requires |a| > 0 && m <= n
    ensures Window(a, off, n)[..m] == Window(a, off, m)
  {
  }

  /**
   * With nothing writing between the two reads, the header read with the
   * whole entry is always the header read first: the third check never fails.
   */
  lemma NoHeaderChange(a: seq<u8>, off: nat)
    requires |a| > 0
    ensures Check(a, off) != HeaderChanged
  {
    var len := LengthAt(a, off);
    if HEADER_SIZE <= len {
      WindowPrefix(a, off, len, HEADER_SIZE);
    }
  }

  /** compare() against the start pattern's bytes fails exactly where getLog fails on the pattern. */
  lemma PatternCheck(a: seq<u8>, off: nat)
    requires |a| > 0
    ensures (Window(a, off, 4) == LE(START_PATTERN, 4)) == (Check(a, off) != BadPattern)
  {
    WindowPrefix(a, off, HEADER_SIZE, 4);
    MarkerBytes();
  }

  // ---------------------------------------------------------------- getNextHeader

  /** What getNextHeader found: an index holding a valid entry, or nothing. */
  datatype Scan = Found(index: u32) | NotFound

  /** The arena offset of a logical index. */
  function Offset(a: seq<u8>, index: u32): nat
    requires ArenaOk(a)
  {
    Normalize(index, |a|)
  }

  /** getLog's verdict at every logical index of the arena. */
  function CheckOf(a: seq<u8>): u32 -> Verdict {
    (index: u32) => if ArenaOk(a) then Check(a, Offset(a, index)) else BadPattern
  }

  /**
   * getNextHeader() from index, loop steps already taken, over an arena of
   * size bytes whose verdicts check gives: stop at the first index whose
   * entry is valid, stepping the index by one (in 32-bit arithmetic)
   * otherwise, and give up once more than size steps are taken. Indices
   * whose start pattern does not match are skipped by compare() without
   * calling getLog, so they increment no counter.
   */
  function ScanFrom(check: u32 -> Verdict, size: nat, index: u32, loop: nat, s: Stats): (r: (Scan, Stats))
    requires loop <= size <= UINT32_MAX
    ensures r.1.collected == s.collected
    decreases size - loop
  {
    var v := check(index);
    if v == Valid then (Found(index), s.(glide := loop))
    else
      var s' := if v == BadPattern then s else Tally(s, v);
      if loop + 1 > size then (NotFound, s'.(nextHeaderFail := s'.nextHeaderFail + 1))
      else ScanFrom(check, size, Wrap32(index + 1), loop + 1, s')
  }

  /** The index getNextHeader returns: the one found, or 0. */
  /** One step of getNextHeader: stop on a valid entry, count the failure otherwise and step on. */
  lemma ScanStep(check: u32 -> Verdict, size: nat, i: u32, loop: nat, s: Stats, v: Verdict)
    requires loop <= size <= UINT32_MAX && v == check(i)
    ensures v == Valid ==> ScanFrom(check, size, i, loop, s) == (Found(i), s.(glide := loop))
    ensures v != Valid ==>
      var s' := if v == BadPattern then s else Tally(s, v);
      ScanFrom(check, size, i, loop, s)
        == if loop + 1 > size then (NotFound, s'.(nextHeaderFail := s'.nextHeaderFail + 1))
           else ScanFrom(check, size, Wrap32(i + 1), loop + 1, s')
  {
  }

  function ScanIndex(r: Scan): u32 {
    if r.Found? then r.index else 0
  }

  /** The index k steps on from index. */
  function Step(index: u32, k: nat): u32 {
    Wrap32(index + k)
  }

  /** getLog fails at each of the n indices from index on. */
  predicate NoneValid(check: u32 -> Verdict, index: u32, n: nat) {
    forall j :: 0 <= j < n ==> check(Step(index, j)) != Valid
  }

  /**
   * getNextHeader either returns the first index at which getLog
   * succeeds, glide - loop steps on, every index before it failing; or it
   * has seen every index up to size steps on fail, and counts one more
   * failure.
   */
  lemma {:induction false} ScanOutcome(check: u32 -> Verdict, size: nat, index: u32, loop: nat, s: Stats)
    requires loop <= size <= UINT32_MAX
    ensures ScanFrom(check, size, index, loop, s).0.Found? ==>
      var t := ScanFrom(check, size, index, loop, s).1;
      loop <= t.glide <= size && ScanFrom(check, size, index, loop, s).0.index == Step(index, t.glide - loop)
      && check(Step(index, t.glide - loop)) == Valid && NoneValid(check, index, t.glide - loop)
    ensures ScanFrom(check, size, index, loop, s).0.NotFound? ==>
      ScanFrom(check, size, index, loop, s).1.nextHeaderFail == s.nextHeaderFail + 1 && NoneValid(check, index, size - loop + 1)
    decreases size - loop
  {
    assert Step(index, 0) == index;
    var v := check(index);
    if v != Valid {
      var s' := if v == BadPattern then s else Tally(s, v);
      var next := Wrap32(index + 1);
      if loop + 1 <= size {
        ScanOutcome(check, size, next, loop + 1, s');
        StepsOn(check, index, size - loop + 1);
      }
    }
  }

  /** Failing at index and at the m - 1 indices after it is failing at m indices from index. */
  lemma StepsOn(check: u32 -> Verdict, index: u32, n: nat)
    requires n >= 1 && check(index) != Valid
    ensures forall m :: 1 <= m <= n && NoneValid(check, Wrap32(index + 1), m - 1) ==> NoneValid(check, index, m)
    ensures forall k :: 1 <= k <= n ==> Step(Wrap32(index + 1), k - 1) == Step(index, k)
  {
    forall m | 1 <= m <= n && NoneValid(check, Wrap32(index + 1), m - 1) ensures NoneValid(check, index, m) {
      forall j | 0 <= j < m ensures check(Step(index, j)) != Valid {
        if j > 0 {
          assert Step(index, j) == Step(Wrap32(index + 1), j - 1);
        }
      }
    }
  }

  // ---------------------------------------------------------------- printAtIndex

  /**
   * What the rest of the program image supplies to printing: the format
   * string a header's format handle points to, the rendering of one
   * conversion (sprintf), and the timestamp prefix of an entry.
   */
  datatype Printer = Printer(formatAt: u64 -> string, render: (string, Value) -> string, stamp: seq<u8> -> string)

  /** printAtIndex's outcome: success, the text, next_index, and the counters. */
  datatype Printed = Printed(ok: bool, text: string, next: u32, stats: Stats)

  /** How many times printAtIndex calls getLog on an entry that does not validate. */
  function Attempts(retry: bool): nat {
    if retry then SPINS else 1
  }

  /** The counters after n failed getLog calls with the same verdict. */
  function TallyN(s: Stats, v: Verdict, n: nat): (t: Stats)
    ensures t.collected == s.collected
    decreases n
  {
    if n == 0 then s else TallyN(Tally(s, v), v, n - 1)
  }

  lemma {:induction false} TallyNSnoc(s: Stats, v: Verdict, n: nat)
    ensures TallyN(s, v, n + 1) == Tally(TallyN(s, v, n), v)
    decreases n
  {
    if n > 0 {
      TallyNSnoc(Tally(s, v), v, n - 1);
    }
  }

  /**
   * printAtIndex(): validate the entry at index (SPINS times when retrying,
   * once otherwise), then decode its payload from buffer index 56 with the
   * format the header names, the %s bound taken from length - 8, and the
   * decoding stopped once index + buf_index passes the arena size. The next
   * index is the index after the last value read, plus the trailer.
   */
  function PrintAt(a: seq<u8>, pr: Printer, index: u32, retry: bool, s: Stats): (p: Printed)
    requires ArenaOk(a)
    ensures !p.ok ==> p.next == index && p.text == ""
    ensures p.stats.collected == s.collected
    ensures p.ok ==> Check(a, Offset(a, index)) == Valid
    ensures p.ok && index as nat + MAX_TRACE_LINE + TRAILER_SIZE <= UINT32_MAX as nat ==>
      index as nat + HEADER_SIZE + TRAILER_SIZE <= p.next as nat <= index as nat + MAX_TRACE_LINE + TRAILER_SIZE
  {
    var off := Offset(a, index);
    var v := Check(a, off);
    if v != Valid then
      var t := TallyN(s, v, Attempts(retry));
      Printed(false, "", index, t.(printFall := t.printFall + 1))
    else
      PrintEntry(pr, index, |a| as u32, Window(a, off, LengthAt(a, off)), s)
  }

  /**
   * The decoding half of printAtIndex(), on the entry bytes getLog
   * returned: the timestamp prefix and the rendered values, or the
   * corruption counted.
   */
  function PrintEntry(pr: Printer, index: u32, size: u32, entry: seq<u8>, s: Stats): (p: Printed)
    requires HEADER_SIZE + TRAILER_SIZE <= |entry| <= MAX_TRACE_LINE
    ensures !p.ok ==> p.next == index && p.text == ""
    ensures p.stats.collected == s.collected
    ensures p.ok && index as nat + MAX_TRACE_LINE + TRAILER_SIZE <= UINT32_MAX as nat ==>
      index as nat + HEADER_SIZE + TRAILER_SIZE <= p.next as nat <= index as nat + MAX_TRACE_LINE + TRAILER_SIZE
  {
    var first := entry[..HEADER_SIZE];
    Outcome(pr, index, first,
            DecodeFrom(pr.formatAt(FormatOf(first)), 0, entry, HEADER_SIZE, |entry| - TRAILER_SIZE, StopPast(index, size), pr.render), s)
  }

  /** What printAtIndex reports for the decoding outcome of the entry whose header bytes are first. */
  function Outcome(pr: Printer, index: u32, first: seq<u8>, res: Result<DecodeOut, DecodeError>, s: Stats): (p: Printed)
    requires |first| == HEADER_SIZE
    ensures !p.ok ==> p.next == index && p.text == ""
    ensures p.stats.collected == s.collected
  {
    match res
    case Err(e) =>
      Printed(false, "", index,
              s.(stringCorrupted := s.stringCorrupted + e.truncations + if e.kind == StringBoundNegative then 1 else 0))
    case Ok(out) =>
      Printed(true, pr.stamp(first) + out.text, Wrap32(out.index + index + TRAILER_SIZE),
              s.(stringCorrupted := s.stringCorrupted + out.truncations, lastPrintedId := IdOf(first)))
  }

  // ---------------------------------------------------------------- printAtIndex as written

  /**
   * The C string printAtIndex hands to sprintf for the specification
   * f[i..e]. strncpy copies e - i + 1 characters into format[32], where e
   * is already one past the conversion letter: the specification and the
   * format's next character. When that character is the terminator, the
   * copy is a C string holding just the specification. Otherwise nothing
   * terminates it, and sprintf reads on into what format[] held before;
   * stale is what it reads there, up to the first zero.
   */
  function StrncpySpec(f: string, i: nat, e: nat, stale: string): (c: string)
    requires i <= e <= |f|
    ensures At(f, e) == NUL ==> c == f[i..e]
    ensures At(f, e) != NUL ==> |c| > e - i && c[..e - i] == f[i..e] && c[e - i] == f[e]
  {
    if At(f, e) == NUL then f[i..e] else f[i..e + 1] + stale
  }

  /**
   * One iteration of printAtIndex's loop as written. It scans and reads
   * exactly as decodeFromArgsBuffer does, but every value sprintf renders
   * (all conversions except %s, which memGetString copies, and %%) is
   * rendered with the strncpy copy of its specification.
   */
  function PrintStepAsWritten(f: string, i: nat, buf: seq<u8>, idx: nat, limit: int, render: (string, Value) -> string,
                              stale: string): (r: Result<Piece, FailKind>)
    requires i < |f| && idx <= |buf|
    ensures r.Ok? ==> i < r.value.next <= |f| && idx <= r.value.idx <= |buf|
  {
    match DecodeStep(f, i, buf, idx, limit, render)
    case Err(k) => Err(k)
    case Ok(p) =>
      if p.value.Some? && !p.value.value.Text? then Ok(p.(text := render(StrncpySpec(f, i, p.next, stale), p.value.value)))
      else Ok(p)
  }

  /**
   * The step as written differs from decodeFromArgsBuffer's only in the
   * text of a value sprintf renders, and not at all when the conversion
   * ends the format.
   */
  lemma StepAsWrittenText(f: string, i: nat, buf: seq<u8>, idx: nat, limit: int, render: (string, Value) -> string,
                          stale: string)
    requires i < |f| && idx <= |buf|
    ensures var w := PrintStepAsWritten(f, i, buf, idx, limit, render, stale);
      var c := DecodeStep(f, i, buf, idx, limit, render);
      && (w.Err? <==> c.Err?)
      && (w.Err? ==> w.error == c.error)
      && (w.Ok? ==> w.value.(text := c.value.text) == c.value)
      && (w.Ok? && At(f, w.value.next) == NUL ==> w == c)
  {
    var c := DecodeStep(f, i, buf, idx, limit, render);
    if c.Ok? && c.value.value.Some? && !c.value.value.value.Text? {
      assert f[i] == '%' && DecScan(f, i).Conv?;
    }
  }

  /**
   * printAtIndex's decoding loop as written, from format position i; the
   * stale tail sprintf reads at each conversion is given by its position.
   */
  function PrintFromAsWritten(f: string, i: nat, buf: seq<u8>, idx: nat, limit: int, g: Guard,
                              render: (string, Value) -> string, stale: nat -> string): (r: Result<DecodeOut, DecodeError>)
    requires i <= |f| && idx <= |buf|
    decreases |f| - i
  {
    if At(f, i) == NUL then Ok(DecodeOut("", idx, 0, []))
    else match PrintStepAsWritten(f, i, buf, idx, limit, render, stale(i))
      case Err(k) => Err(DecodeError(k, 0))
      case Ok(p) =>
        if Stops(g, p.idx) then Ok(PieceOut(p))
        else Then(PieceOut(p), PrintFromAsWritten(f, p.next, buf, p.idx, limit, g, render, stale))
  }

  /** Two decoding outcomes that agree in everything but the rendered text. */
  predicate AlikeButText(w: Result<DecodeOut, DecodeError>, c: Result<DecodeOut, DecodeError>) {
    match w
    case Err(e) => c == Err(e)
    case Ok(o) => c.Ok? && o.index == c.value.index && o.truncations == c.value.truncations && o.values == c.value.values
  }

  /** Outputs alike but for their text, each followed by outcomes alike but for their text. */
  lemma ThenAlike(pw: DecodeOut, pc: DecodeOut, rw: Result<DecodeOut, DecodeError>, rc: Result<DecodeOut, DecodeError>)
    requires AlikeButText(Ok(pw), Ok(pc)) && AlikeButText(rw, rc)
    ensures AlikeButText(Then(pw, rw), Then(pc, rc))
  {
  }

  /**
   * The loop as written reads the same values, stops at the same buffer
   * index, counts the same truncations and fails in the same way as the
   * corrected one: only the text differs.
   */
  lemma {:induction false} AsWrittenReadsAlike(f: string, i: nat, buf: seq<u8>, idx: nat, limit: int, g: Guard,
                                               render: (string, Value) -> string, stale: nat -> string)
    requires i <= |f| && idx <= |buf|
    ensures AlikeButText(PrintFromAsWritten(f, i, buf, idx, limit, g, render, stale), DecodeFrom(f, i, buf, idx, limit, g, render))
    decreases |f| - i
  {
    if At(f, i) != NUL {
      StepAsWrittenText(f, i, buf, idx, limit, render, stale(i));
      var w := PrintStepAsWritten(f, i, buf, idx, limit, render, stale(i));
      var c := DecodeStep(f, i, buf, idx, limit, render);
      if c.Ok? {
        var pw, pc := w.value, c.value;
        assert AlikeButText(Ok(PieceOut(pw)), Ok(PieceOut(pc)));
        if !Stops(g, pc.idx) {
          AsWrittenReadsAlike(f, pc.next, buf, pc.idx, limit, g, render, stale);
          ThenAlike(PieceOut(pw), PieceOut(pc), PrintFromAsWritten(f, pc.next, buf, pc.idx, limit, g, render, stale),
                    DecodeFrom(f, pc.next, buf, pc.idx, limit, g, render));
        }
      }
    }
  }

  /**
   * The defect on "%d\n", a conversion followed by text: sprintf receives
   * "%d\n" and the stale tail. Where sprintf prints the text after a
   * conversion as printf does, the newline is printed once inside the
   * conversion's text and once more by the next iteration, with the stale
   * characters between the two. The corrected decoder prints it once.
   */
  lemma PrintAsWrittenRepeats(x: u32, render: (string, Value) -> string, stale: nat -> string)
    requires render("%d\n" + stale(0), Int32(x)) == render("%d", Int32(x)) + "\n" + stale(0)
    ensures PrintFromAsWritten("%d\n", 0, LE(x, 4), 0, 4, Unguarded, render, stale)
         == Ok(DecodeOut(render("%d", Int32(x)) + "\n" + stale(0) + "\n", 4, 0, [Int32(x)]))
    ensures DecodeFrom("%d\n", 0, LE(x, 4), 0, 4, Unguarded, render)
         == Ok(DecodeOut(render("%d", Int32(x)) + "\n", 4, 0, [Int32(x)]))
  {
    var f := "%d\n";
    var buf := LE(x, 4);
    NewlineTail(x, render, stale);
    MemGetOfMemSet(Int32(x), buf, 0);
    assert MemGet(buf, 0, KInt) == Some(Int32(x));
    assert DecScan(f, 0) == Conv(KInt, 2);
    assert f[0..2] == "%d" && f[0..3] == "%d\n";
    var d := render("%d", Int32(x));
    var dw := d + "\n" + stale(0);
    assert StrncpySpec(f, 0, 2, stale(0)) == "%d\n" + stale(0);
    assert DecodeStep(f, 0, buf, 0, 4, render) == Ok(Piece(d, 2, 4, false, Some(Int32(x))));
    assert PrintStepAsWritten(f, 0, buf, 0, 4, render, stale(0)) == Ok(Piece(dw, 2, 4, false, Some(Int32(x))));
    assert [Int32(x)] + [] == [Int32(x)];
  }

  /** Both loops on the text after the conversion in "%d\n": the newline, with the value already read. */
  lemma NewlineTail(x: u32, render: (string, Value) -> string, stale: nat -> string)
    ensures PrintFromAsWritten("%d\n", 2, LE(x, 4), 4, 4, Unguarded, render, stale) == Ok(DecodeOut("\n", 4, 0, []))
    ensures DecodeFrom("%d\n", 2, LE(x, 4), 4, 4, Unguarded, render) == Ok(DecodeOut("\n", 4, 0, []))
  {
    var f := "%d\n";
    var buf := LE(x, 4);
    var none := Ok(DecodeOut("", 4, 0, []));
    assert DecodeFrom(f, 3, buf, 4, 4, Unguarded, render) == none;
    assert PrintFromAsWritten(f, 3, buf, 4, 4, Unguarded, render, stale) == none;
    var noValues: seq<Value> := [];
    assert "\n" + "" == "\n" && noValues + noValues == noValues;
  }

  /** The decoding half of printAtIndex as written, on the entry bytes getLog returned. */
  function PrintEntryAsWritten(pr: Printer, index: u32, size: u32, entry: seq<u8>, s: Stats, stale: nat -> string): (p: Printed)
    requires HEADER_SIZE + TRAILER_SIZE <= |entry| <= MAX_TRACE_LINE
  {
    var first := entry[..HEADER_SIZE];
    Outcome(pr, index, first,
            PrintFromAsWritten(pr.formatAt(FormatOf(first)), 0, entry, HEADER_SIZE, |entry| - TRAILER_SIZE,
                               StopPast(index, size), pr.render, stale), s)
  }

  /**
   * printAtIndex as written succeeds, reports the next index and counts
   * exactly as the corrected decoding does, so dumpRange's course is the
   * same; only the text of the line differs.
   */
  lemma PrintEntryAsWrittenFlow(pr: Printer, index: u32, size: u32, entry: seq<u8>, s: Stats, stale: nat -> string)
    requires HEADER_SIZE + TRAILER_SIZE <= |entry| <= MAX_TRACE_LINE
    ensures var w := PrintEntryAsWritten(pr, index, size, entry, s, stale);
      var c := PrintEntry(pr, index, size, entry, s);
      w.ok == c.ok && w.next == c.next && w.stats == c.stats
  {
    var first := entry[..HEADER_SIZE];
    var f := pr.formatAt(FormatOf(first));
    var g := StopPast(index, size);
    AsWrittenReadsAlike(f, 0, entry, HEADER_SIZE, |entry| - TRAILER_SIZE, g, pr.render, stale);
    OutcomeAlike(pr, index, first, PrintFromAsWritten(f, 0, entry, HEADER_SIZE, |entry| - TRAILER_SIZE, g, pr.render, stale),
                 DecodeFrom(f, 0, entry, HEADER_SIZE, |entry| - TRAILER_SIZE, g, pr.render), s);
  }

  /** printAtIndex's report on two decoding outcomes alike but for their text differs only in its text. */
  lemma OutcomeAlike(pr: Printer, index: u32, first: seq<u8>, w: Result<DecodeOut, DecodeError>, c: Result<DecodeOut, DecodeError>,
                     s: Stats)
    requires |first| == HEADER_SIZE && AlikeButText(w, c)
    ensures Outcome(pr, index, first, w, s).ok == Outcome(pr, index, first, c, s).ok
    ensures Outcome(pr, index, first, w, s).next == Outcome(pr, index, first, c, s).next
    ensures Outcome(pr, index, first, w, s).stats == Outcome(pr, index, first, c, s).stats
  {
  }

  // ---------------------------------------------------------------- dumpRange

  /** One write to the output stream: a printed entry, or the "Logs are discarded" notice. */
  datatype Line = Entry(text: string) | Discarded(realignedTo: u32)

  /** dumpRange's outcome: the index it returns, the lines it writes, and the counters. */
  datatype Dumped = Dumped(result: u32, lines: seq<Line>, stats: Stats)

  function Emit(line: Line, d: Dumped): Dumped {
    d.(lines := [line] + d.lines)
  }

  /** The outcome d with the lines already written before it. */
  function After(written: seq<Line>, d: Dumped): Dumped {
    d.(lines := written + d.lines)
  }

  /** dumpRange's normalisation: start and end+1 as arena offsets, end+1 widened to size when start is past it. */
  function Bounds(start: u32, end: u32, size: u32): (b: (u32, u32))
    requires size > 0
    ensures b.0 < size && b.1 <= size
  {
    var s := Normalize(start, size);
    var e := Normalize(end, size) + 1;
    if s > e then (s, size) else (s, e)
  }

  /** Offsets within the arena, start first: the loop runs from start up to end inclusive. */
  lemma BoundsWithin(start: u32, end: u32, size: u32)
    requires start <= end < size
    ensures Bounds(start, end, size) == (start, end + 1)
  {
    Arith.ModBelow(start as int, size as int);
    Arith.ModBelow(end as int, size as int);
  }

  /** printAtIndex and getNextHeader as the loop of dumpRange sees them. */
  type PrintFn = (u32, bool, Stats) -> Printed
  type ResyncFn = (u32, Stats) -> (Scan, Stats)

  function PrintOf(a: seq<u8>, pr: Printer): PrintFn {
    (i: u32, retry: bool, s: Stats) => if ArenaOk(a) then PrintAt(a, pr, i, retry, s) else Printed(false, "", i, s)
  }

  function ScanOf(a: seq<u8>): ResyncFn {
    (i: u32, s: Stats) => if ArenaOk(a) then ScanFrom(CheckOf(a), |a|, i, 0, s) else (NotFound, s)
  }

  /** A successful print moves past the index it printed at. */
  ghost predicate Advances(show: PrintFn, size: nat) {
    forall i: u32, retry: bool, s: Stats :: i as nat < size && show(i, retry, s).ok ==> show(i, retry, s).next > i
  }

  /** Printing and resynchronising leave collectCount_ alone. */
  ghost predicate KeepsCollected(show: PrintFn, resync: ResyncFn) {
    (forall i: u32, retry: bool, s: Stats :: show(i, retry, s).stats.collected == s.collected)
    && (forall i: u32, s: Stats :: resync(i, s).1.collected == s.collected)
  }

  /**
   * show and resync are printAtIndex and getNextHeader over the arena a
   * (each equation is used only where the method it describes is called).
   */
  ghost predicate Models(show: PrintFn, resync: ResyncFn, a: seq<u8>, pr: Printer) {
    && ArenaOk(a)
    && (forall i: u32, retry: bool, s: Stats {:trigger PrintAt(a, pr, i, retry, s)} ::
          show(i, retry, s) == PrintAt(a, pr, i, retry, s))
    && (forall i: u32, s: Stats {:trigger ScanFrom(CheckOf(a), |a|, i, 0, s)} ::
          resync(i, s) == ScanFrom(CheckOf(a), |a|, i, 0, s))
  }

  lemma ModelsOf(a: seq<u8>, pr: Printer)
    requires ArenaOk(a)
    ensures Models(PrintOf(a, pr), ScanOf(a), a, pr)
  {
  }

  /** printAtIndex moves forward within any end up to the arena size. */
  lemma PrintOfAdvances(a: seq<u8>, pr: Printer, end: nat)
    requires ArenaOk(a) && end <= |a|
    ensures Advances(PrintOf(a, pr), end)
  {
  }

  /** getNextHeader and printAtIndex count no collected entries. */
  lemma PrintOfKeepsCollected(a: seq<u8>, pr: Printer)
    requires ArenaOk(a)
    ensures KeepsCollected(PrintOf(a, pr), ScanOf(a))
  {
  }

  /**
   * The loop of dumpRange() from i up to end: show each entry and move to
   * the next index it reports, writing the entry only when that index is
   * within end; on a failure write the notice and resynchronise with
   * getNextHeader, returning at once unless continuing on failure. This is
   * the corrected loop: it also returns when resynchronising does not move
   * forward (see DumpStepAsWritten for the loop as written).
   */
  function DumpFrom(show: PrintFn, resync: ResyncFn, i: u32, end: nat, cont: bool, s: Stats): (d: Dumped)
    requires Advances(show, end)
    decreases end - i
  {
    if i as nat >= end then Dumped(i, [], s)
    else
      var p := show(i, !cont, s);
      if !p.ok then
        var sc := resync(i, p.stats);
        var ni := ScanIndex(sc.0);
        if !cont || ni <= i then Dumped(ni, [Discarded(ni)], sc.1)
        else if ni as nat > end then Dumped(i, [Discarded(ni)], sc.1)
        else Emit(Discarded(ni), DumpFrom(show, resync, ni, end, cont, sc.1))
      else if p.next as nat > end then Dumped(i, [], p.stats)
      else Emit(Entry(p.text), DumpFrom(show, resync, p.next, end, cont, p.stats.(collected := p.stats.collected + 1)))
  }

  /**
   * One pass of dumpRange's corrected loop body from i < end, given what
   * printAtIndex returned (p) and what getNextHeader would return after it
   * (sc): the turn it takes and the lines it writes.
   */
  function PassOf(p: Printed, sc: (Scan, Stats), i: u32, end: nat, cont: bool): (Turn, seq<Line>) {
    if !p.ok then Realign(sc, i, end, cont)
    else if p.next as nat > end then (Done(i, p.stats), [])
    else (Again(p.next, p.stats.(collected := p.stats.collected + 1)), [Entry(p.text)])
  }

  /** A pass of dumpRange()'s loop over arena a: printAtIndex at i, and getNextHeader from i after it. */
  function PassAt(a: seq<u8>, pr: Printer, i: u32, end: nat, cont: bool, s: Stats): (Turn, seq<Line>)
    requires ArenaOk(a)
  {
    var p := PrintAt(a, pr, i, !cont, s);
    PassOf(p, ScanFrom(CheckOf(a), |a|, i, 0, p.stats), i, end, cont)
  }

  /**
   * The failure half of a pass: write the notice naming the index
   * getNextHeader found, then leave unless continuing on failure, or go on
   * from that index when it is forward and within end.
   */
  function Realign(sc: (Scan, Stats), i: u32, end: nat, cont: bool): (Turn, seq<Line>) {
    var ni := ScanIndex(sc.0);
    if !cont || ni <= i then (Done(ni, sc.1), [Discarded(ni)])
    else if ni as nat > end then (Done(i, sc.1), [Discarded(ni)])
    else (Again(ni, sc.1), [Discarded(ni)])
  }

  /** One pass of the loop with show and resync standing for printAtIndex and getNextHeader. */
  function DumpPass(show: PrintFn, resync: ResyncFn, i: u32, end: nat, cont: bool, s: Stats): (Turn, seq<Line>) {
    var p := show(i, !cont, s);
    PassOf(p, resync(i, p.stats), i, end, cont)
  }

  /**
   * DumpFrom is its passes one after another: a pass that leaves gives the
   * outcome, one that goes on moves forward within end and is followed by
   * the rest of the loop.
   */
  lemma DumpPassStep(show: PrintFn, resync: ResyncFn, i: u32, end: nat, cont: bool, s: Stats)
    requires Advances(show, end) && i as nat < end
    ensures var (t, lines) := DumpPass(show, resync, i, end, cont, s);
      match t
      case Done(r, s') => DumpFrom(show, resync, i, end, cont, s) == Dumped(r, lines, s')
      case Again(j, s') =>
        (i < j && j as nat <= end
         && DumpFrom(show, resync, i, end, cont, s) == After(lines, DumpFrom(show, resync, j, end, cont, s')))
  {
  }

  lemma AfterAfter(w: seq<Line>, l: seq<Line>, d: Dumped)
    ensures After(w, After(l, d)) == After(w + l, d)
  {
    Associative(w, l, d.lines);
  }

  lemma Associative(x: seq<Line>, y: seq<Line>, z: seq<Line>)
    ensures x + y + z == x + (y + z)
  {
  }

  /** One pass of the loop, with the lines written before it. */
  lemma DumpLoopStep(show: PrintFn, resync: ResyncFn, i: u32, end: nat, cont: bool, s: Stats,
                     written: seq<Line>, t: Turn, lines: seq<Line>)
    requires Advances(show, end) && i as nat < end
    requires (t, lines) == DumpPass(show, resync, i, end, cont, s)
    ensures t.Done? ==> After(written, DumpFrom(show, resync, i, end, cont, s)) == Dumped(t.result, written + lines, t.stats)
    ensures t.Again? ==>
      && i < t.i && t.i as nat <= end
      && After(written, DumpFrom(show, resync, i, end, cont, s)) == After(written + lines, DumpFrom(show, resync, t.i, end, cont, t.stats))
  {
    DumpPassStep(show, resync, i, end, cont, s);
    if t.Done? {
      AfterAfter(written, lines, Dumped(t.result, [], t.stats));
      assert lines + [] == lines;
    } else {
      AfterAfter(written, lines, DumpFrom(show, resync, t.i, end, cont, t.stats));
    }
  }

  /** dumpRange(start, end, continueOnFailure) over the arena a. */
  function DumpRange(a: seq<u8>, pr: Printer, start: u32, end: u32, cont: bool, s: Stats): Dumped
    requires ArenaOk(a)
  {
    var b := Bounds(start, end, |a|);
    PrintOfAdvances(a, pr, b.1);
    DumpFrom(PrintOf(a, pr), ScanOf(a), b.0, b.1, cont, s)
  }

  /** The number of printed entries among the lines written. */
  function EntryCount(lines: seq<Line>): nat {
    if lines == [] then 0 else (if lines[0].Entry? then 1 else 0) + EntryCount(lines[1..])
  }

  /** collectCount_ goes up by one for each entry written, and by nothing else. */
  lemma {:induction false} DumpCollects(show: PrintFn, resync: ResyncFn, i: u32, end: nat, cont: bool, s: Stats)
    requires Advances(show, end) && KeepsCollected(show, resync)
    ensures DumpFrom(show, resync, i, end, cont, s).stats.collected == s.collected + EntryCount(DumpFrom(show, resync, i, end, cont, s).lines)
    decreases end - i
  {
    if i as nat < end {
      var p := show(i, !cont, s);
      if !p.ok {
        var sc := resync(i, p.stats);
        var ni := ScanIndex(sc.0);
        if cont && ni > i && ni as nat <= end {
          DumpCollects(show, resync, ni, end, cont, sc.1);
          assert EntryCount([Discarded(ni)] + DumpFrom(show, resync, ni, end, cont, sc.1).lines)
              == EntryCount(DumpFrom(show, resync, ni, end, cont, sc.1).lines);
        } else {
          assert EntryCount([Discarded(ni)]) == 0;
        }
      } else if p.next as nat <= end {
        var s' := p.stats.(collected := p.stats.collected + 1);
        DumpCollects(show, resync, p.next, end, cont, s');
        assert EntryCount([Entry(p.text)] + DumpFrom(show, resync, p.next, end, cont, s').lines)
            == 1 + EntryCount(DumpFrom(show, resync, p.next, end, cont, s').lines);
      }
    }
  }

  /**
   * Where dumpRange leaves off: within the range, unless a failure made it
   * resynchronise, in which case the notice naming the new index is the
   * last line written and that index is the result.
   */
  lemma {:induction false} DumpEnds(show: PrintFn, resync: ResyncFn, i: u32, end: nat, cont: bool, s: Stats)
    requires Advances(show, end) && i as nat <= end
    ensures var d := DumpFrom(show, resync, i, end, cont, s);
      d.result as nat <= end || (|d.lines| > 0 && d.lines[|d.lines| - 1] == Discarded(d.result))
    decreases end - i
  {
    if i as nat < end {
      var p := show(i, !cont, s);
      if !p.ok {
        var sc := resync(i, p.stats);
        var ni := ScanIndex(sc.0);
        if cont && ni > i && ni as nat <= end {
          DumpEnds(show, resync, ni, end, cont, sc.1);
        }
      } else if p.next as nat <= end {
        DumpEnds(show, resync, p.next, end, cont, p.stats.(collected := p.stats.collected + 1));
      }
    }
  }

  /**
   * Without continueOnFailure, dumpRange writes printed entries and at
   * most one notice, last, returning the index the notice names.
   */
  lemma {:induction false} DumpStopsAtFailure(show: PrintFn, resync: ResyncFn, i: u32, end: nat, s: Stats)
    requires Advances(show, end)
    ensures var d := DumpFrom(show, resync, i, end, false, s);
      (forall k :: 0 <= k < |d.lines| - 1 ==> d.lines[k].Entry?)
      && (|d.lines| > 0 && d.lines[|d.lines| - 1].Discarded? ==> d.result == d.lines[|d.lines| - 1].realignedTo)
    decreases end - i
  {
    if i as nat < end {
      var p := show(i, true, s);
      if p.ok && p.next as nat <= end {
        var s' := p.stats.(collected := p.stats.collected + 1);
        DumpStopsAtFailure(show, resync, p.next, end, s');
        var rest := DumpFrom(show, resync, p.next, end, false, s');
        assert DumpFrom(show, resync, i, end, false, s).lines == [Entry(p.text)] + rest.lines;
      }
    }
  }

  /** One pass of dumpRange's loop: go on from a new index, or leave with a result. */
  datatype Turn = Again(i: u32, stats: Stats) | Done(result: u32, stats: Stats)

  /**
   * One pass of dumpRange's loop body as written, from i < end: on a
   * failure while continuing on failure, it goes on from whatever index
   * getNextHeader returns, even one that is not past i.
   */
  function DumpStepAsWritten(show: PrintFn, resync: ResyncFn, i: u32, end: nat, cont: bool, s: Stats): Turn {
    var p := show(i, !cont, s);
    if !p.ok then
      var sc := resync(i, p.stats);
      var ni := ScanIndex(sc.0);
      if !cont then Done(ni, sc.1)
      else if ni as nat > end then Done(i, sc.1)
      else Again(ni, sc.1)
    else if p.next as nat > end then Done(i, p.stats)
    else Again(p.next, p.stats.(collected := p.stats.collected + 1))
  }

  /** n passes of the loop as written, stopping early once it leaves or i reaches end. */
  function RunAsWritten(show: PrintFn, resync: ResyncFn, n: nat, i: u32, end: nat, cont: bool, s: Stats): Turn
    decreases n
  {
    if n == 0 || i as nat >= end then Again(i, s)
    else match DumpStepAsWritten(show, resync, i, end, cont, s)
      case Done(r, t) => Done(r, t)
      case Again(j, t) => RunAsWritten(show, resync, n - 1, j, end, cont, t)
  }

  /**
   * When printing at index 0 fails and getNextHeader finds nothing (it
   * returns 0), the loop as written, continuing on failure, is back at
   * index 0 after every pass: it never leaves.
   */
  lemma {:induction false} DumpAsWrittenStalls(show: PrintFn, resync: ResyncFn, n: nat, end: nat, s: Stats)
    requires 0 < end
    requires forall t: Stats :: !show(0, false, t).ok
    requires forall t: Stats :: resync(0, t).0 == NotFound
    ensures RunAsWritten(show, resync, n, 0, end, true, s).Again? && RunAsWritten(show, resync, n, 0, end, true, s).i == 0
    decreases n
  {
    if n > 0 {
      var t := resync(0, show(0, false, s).stats).1;
      assert DumpStepAsWritten(show, resync, 0, end, true, s) == Again(0, t);
      DumpAsWrittenStalls(show, resync, n - 1, end, t);
    }
  }

  /** The corrected loop on the same input returns at once with the one notice. */
  lemma DumpCorrectedReturns(show: PrintFn, resync: ResyncFn, end: nat, s: Stats)
    requires 0 < end && Advances(show, end)
    requires !show(0, false, s).ok && resync(0, show(0, false, s).stats).0 == NotFound
    ensures DumpFrom(show, resync, 0, end, true, s).result == 0
    ensures DumpFrom(show, resync, 0, end, true, s).lines == [Discarded(0)]
  {
  }

  /** An all-zero arena: no index holds a start pattern. */
  function ZeroArena(size: nat): (a: seq<u8>)
    ensures |a| == size
  {
    seq(size, _ => 0)
  }

  /** On an arena of zero bytes no offset holds the start pattern. */
  lemma ZeroCheck(a: seq<u8>, off: nat)
    requires |a| > 0 && forall k :: 0 <= k < |a| ==> a[k] == 0
    ensures Check(a, off) == BadPattern
  {
    assert Window(a, off, HEADER_SIZE)[0] == 0;
  }

  /** On an all-zero arena every getLog fails on the start pattern, and getNextHeader finds nothing. */
  lemma ZeroArenaFails(size: nat, pr: Printer, i: u32, s: Stats)
    requires SizeOk(size)
    ensures !PrintOf(ZeroArena(size), pr)(i, false, s).ok
    ensures ScanOf(ZeroArena(size))(i, s).0 == NotFound
  {
    var a := ZeroArena(size);
    forall j: u32 ensures CheckOf(a)(j) == BadPattern {
      ZeroCheck(a, Offset(a, j));
    }
    ScanOutcome(CheckOf(a), size, i, 0, s);
  }

  /**
   * The counterexample: collect's dumpRange (continuing on failure) over
   * an all-zero arena from index 0 never leaves index 0, while the
   * corrected loop returns 0 after one notice.
   */
  lemma ZeroArenaStalls(size: nat, pr: Printer, end: nat, n: nat, s: Stats)
    requires SizeOk(size) && 0 < end <= size
    ensures RunAsWritten(PrintOf(ZeroArena(size), pr), ScanOf(ZeroArena(size)), n, 0, end, true, s) .Again?
    ensures RunAsWritten(PrintOf(ZeroArena(size), pr), ScanOf(ZeroArena(size)), n, 0, end, true, s).i == 0
    ensures DumpFrom(PrintOf(ZeroArena(size), pr), ScanOf(ZeroArena(size)), 0, end, true, s).lines == [Discarded(0)]
  {
    var a := ZeroArena(size);
    forall t: Stats ensures !PrintOf(a, pr)(0, false, t).ok && ScanOf(a)(0, t).0 == NotFound {
      ZeroArenaFails(size, pr, 0, t);
    }
    DumpAsWrittenStalls(PrintOf(a, pr), ScanOf(a), n, end, s);
    PrintOfAdvances(a, pr, end);
    DumpCorrectedReturns(PrintOf(a, pr), ScanOf(a), end, s);
  }

  // ---------------------------------------------------------------- firstLine

  /**
   * firstLine(): before the cursor first passes the arena size (and with
   * no wrap-around recorded) the oldest entry is at 0; afterwards it is
   * the first valid entry at or after the cursor's offset.
   */
  function FirstLine(a: seq<u8>, cursor: u32, wrapped: bool, s: Stats): (r: (u32, Stats))
    requires ArenaOk(a)
  {
    if cursor as nat >= |a| || wrapped then
      var sc := ScanFrom(CheckOf(a), |a|, Normalize(cursor, |a|), 0, s);
      (ScanIndex(sc.0), sc.1)
    else (0, s)
  }

  /** firstLine returns 0 or an index holding a valid entry. */
  lemma FirstLineValid(a: seq<u8>, cursor: u32, wrapped: bool, s: Stats)
    requires ArenaOk(a)
    ensures FirstLine(a, cursor, wrapped, s).0 == 0 || Check(a, Offset(a, FirstLine(a, cursor, wrapped, s).0)) == Valid
  {
    if cursor as nat >= |a| || wrapped {
      ScanOutcome(CheckOf(a), |a|, Normalize(cursor, |a|), 0, s);
    }
  }

  // ---------------------------------------------------------------- dump

  /**
   * dump() without its report text: dumpRange, stopping at the first
   * failure, from the slot of firstLine() to the slot before the cursor's
   * (end - 1 in 32-bit arithmetic, so 0xffffffff when the cursor sits at
   * slot 0).
   */
  function Dump(a: seq<u8>, pr: Printer, cursor: u32, wrapped: bool, s: Stats): Dumped
    requires ArenaOk(a)
  {
    var f := FirstLine(a, cursor, wrapped, s);
    DumpRange(a, pr, Normalize(f.0, |a|), Wrap32(Normalize(cursor, |a|) as int - 1), false, f.1)
  }

  /**
   * dump() writes printed entries and at most one notice, last, naming the
   * index it returns, and raises collectCount_ by the entries it writes.
   */
  lemma DumpWrites(a: seq<u8>, pr: Printer, cursor: u32, wrapped: bool, s: Stats)
    requires ArenaOk(a)
    ensures var d := Dump(a, pr, cursor, wrapped, s);
      && d.stats.collected == s.collected + EntryCount(d.lines)
      && (forall k :: 0 <= k < |d.lines| - 1 ==> d.lines[k].Entry?)
      && (|d.lines| > 0 && d.lines[|d.lines| - 1].Discarded? ==> d.result == d.lines[|d.lines| - 1].realignedTo)
  {
    var f := FirstLine(a, cursor, wrapped, s);
    var b := Bounds(Normalize(f.0, |a|), Wrap32(Normalize(cursor, |a|) as int - 1), |a|);
    PrintOfAdvances(a, pr, b.1);
    PrintOfKeepsCollected(a, pr);
    DumpCollects(PrintOf(a, pr), ScanOf(a), b.0, b.1 as nat, false, f.1);
    DumpStopsAtFailure(PrintOf(a, pr), ScanOf(a), b.0, b.1 as nat, f.1);
  }

  // ---------------------------------------------------------------- traceVargs

  /**
   * The header traceVargs writes: the start pattern, the allocated
   * location normalised, the id, the length, the call site (the line
   * number truncated to 16 bits), and the timestamp or zero. The thread id
   * and the unused bytes are never set by the source; they are zero here.
   */
  function TraceHeader(location: u32, size: u32, id: u32, format: u64, functionName: u64, line: u32,
                       tag: u8, stamp: Option<Timespec>, length: u16): Header
    requires size > 0
  {
    Header(START_PATTERN, Normalize(location, size), id, 0, format, functionName, line % 0x1_0000, length,
           tag, 0, if stamp.Some? then stamp.value else Timespec(0, 0))
  }

  /**
   * The arena after traceVargs writes the entry for payload: the header
   * with the given id and call site, the payload and the trailer, copied
   * circularly from the slot allocate() hands out for the cursor.
   */
  function TracedArena(a: seq<u8>, size: u32, cursor: u32, id: u32, format: u64, functionName: u64, line: u32, tag: u8,
                       stamp: Option<Timespec>, payload: seq<u8>): seq<u8>
    requires ArenaOk(a) && |a| == size as nat && HEADER_SIZE + |payload| + TRAILER_SIZE <= MAX_TRACE_LINE
  {
    var location := AllocBase(cursor, size);
    Overwrite(a, Normalize(location, size), TracedEntry(location, size, id, format, functionName, line, tag, stamp, payload))
  }

  /** The bytes traceVargs copies in for payload at location: the header it fills in, the payload, the trailer. */
  function TracedEntry(location: u32, size: u32, id: u32, format: u64, functionName: u64, line: u32, tag: u8,
                       stamp: Option<Timespec>, payload: seq<u8>): (e: seq<u8>)
    requires size > 0 && HEADER_SIZE + |payload| + TRAILER_SIZE <= MAX_TRACE_LINE
    ensures |e| == HEADER_SIZE + |payload| + TRAILER_SIZE
  {
    EntryBytes(TraceHeader(location, size, id, format, functionName, line, tag, stamp, HEADER_SIZE + |payload| + TRAILER_SIZE), payload)
  }

  /** The cursor after traceVargs writes an entry with a payload of n bytes: allocate()'s slot, moved past the entry. */
  function TracedCursor(cursor: u32, size: u32, n: nat): u32
    requires size > 0
  {
    Wrap32(AllocBase(cursor, size) as int + HEADER_SIZE + n + TRAILER_SIZE)
  }

  /** An entry laid out at off passes all of getLog's checks and reads back its header. */
  lemma EntryAt(a: seq<u8>, off: nat, h: Header, payload: seq<u8>)
    requires |a| > 0 && Window(a, off, |EntryBytes(h, payload)|) == EntryBytes(h, payload)
    requires h.pattern == START_PATTERN && h.length == |EntryBytes(h, payload)| <= MAX_TRACE_LINE
    ensures Window(a, off, HEADER_SIZE) == HeaderBytes(h) && HeaderAt(a, off) == h
    ensures Check(a, off) == Valid
  {
    var e := EntryBytes(h, payload);
    var hb := HeaderBytes(h);
    WindowPrefix(a, off, |e|, HEADER_SIZE);
    assert e[..HEADER_SIZE] == hb;
    ParseHeaderBytes(h);
    assert e[h.length - TRAILER_SIZE..] == TrailerBytes(h.id);
    CheckOfHeader(a, off);
  }

  /** The entry traceVargs copies in at offset start is valid there, with the header it was given. */
  lemma TracedEntryValid(a: seq<u8>, start: nat, h: Header, payload: seq<u8>)
    requires ArenaOk(a) && start < |a|
    requires h.pattern == START_PATTERN && h.length == |EntryBytes(h, payload)| <= MAX_TRACE_LINE
    ensures Check(Overwrite(a, start, EntryBytes(h, payload)), start) == Valid
    ensures HeaderAt(Overwrite(a, start, EntryBytes(h, payload)), start) == h
  {
    WindowOfOverwrite(a, start, EntryBytes(h, payload));
    EntryAt(Overwrite(a, start, EntryBytes(h, payload)), start, h, payload);
  }

  /**
   * After traceVargs writes an entry, the slot allocate() handed out holds
   * an entry getLog accepts, whose header is the one setHeader filled in.
   */
  lemma TracedArenaValid(a: seq<u8>, size: u32, cursor: u32, id: u32, format: u64, functionName: u64, line: u32, tag: u8,
                         stamp: Option<Timespec>, payload: seq<u8>)
    requires ArenaOk(a) && |a| == size as nat && HEADER_SIZE + |payload| + TRAILER_SIZE <= MAX_TRACE_LINE
    ensures var slot := Normalize(AllocBase(cursor, size), size);
      var arena := TracedArena(a, size, cursor, id, format, functionName, line, tag, stamp, payload);
      && Check(arena, slot as nat) == Valid
      && HeaderAt(arena, slot as nat)
         == TraceHeader(AllocBase(cursor, size), size, id, format, functionName, line, tag, stamp,
                        HEADER_SIZE + |payload| + TRAILER_SIZE)
  {
    var location := AllocBase(cursor, size);
    var h := TraceHeader(location, size, id, format, functionName, line, tag, stamp, HEADER_SIZE + |payload| + TRAILER_SIZE);
    TracedEntryValid(a, Normalize(location, size) as nat, h, payload);
  }

  /** printAtIndex on an entry getLog refuses: every attempt counted, one print failure, nothing printed. */
  lemma PrintAtInvalid(a: seq<u8>, pr: Printer, index: u32, retry: bool, s: Stats)
    requires ArenaOk(a) && Check(a, Offset(a, index)) != Valid
    ensures var t := TallyN(s, Check(a, Offset(a, index)), Attempts(retry));
      PrintAt(a, pr, index, retry, s) == Printed(false, "", index, t.(printFall := t.printFall + 1))
  {
  }

  /** printAtIndex on an entry getLog accepts decodes the entry read there, whose first bytes are the header read first. */
  lemma PrintAtValid(a: seq<u8>, pr: Printer, index: u32, retry: bool, s: Stats, entry: seq<u8>)
    requires ArenaOk(a) && Check(a, Offset(a, index)) == Valid
    requires entry == Window(a, Offset(a, index), LengthAt(a, Offset(a, index)))
    ensures HEADER_SIZE + TRAILER_SIZE <= |entry| <= MAX_TRACE_LINE
    ensures entry[..HEADER_SIZE] == Window(a, Offset(a, index), HEADER_SIZE)
    ensures PrintAt(a, pr, index, retry, s) == PrintEntry(pr, index, |a| as u32, entry, s)
  {
  }

  /** Decoding the bytes of an entry whose payload holds the values of a well-formed format. */
  lemma EntryPrints(pr: Printer, index: u32, size: u32, h: Header, ts: Tokens, vals: seq<Value>, payload: seq<u8>, s: Stats)
    requires WellFormed(ts) && Fits(ts, vals) && |vals| == Count(ts) && pr.formatAt(h.format) == Flatten(ts)
    requires payload == Payload(vals) && h.length == HEADER_SIZE + |payload| + TRAILER_SIZE <= MAX_TRACE_LINE
    requires index as nat + h.length <= size as nat
    ensures PrintEntry(pr, index, size, EntryBytes(h, payload), s)
         == Printed(true, pr.stamp(HeaderBytes(h)) + Expected(ts, vals, pr.render), index + h.length,
                    s.(lastPrintedId := h.id))
  {
    EntryFields(h, payload);
    PayloadPrints(pr, index, size, EntryBytes(h, payload), ts, vals, s);
  }

  /** Decoding entry bytes whose header names a well-formed format and whose payload holds its values. */
  lemma PayloadPrints(pr: Printer, index: u32, size: u32, e: seq<u8>, ts: Tokens, vals: seq<Value>, s: Stats)
    requires WellFormed(ts) && Fits(ts, vals) && |vals| == Count(ts)
    requires |e| == HEADER_SIZE + |Payload(vals)| + TRAILER_SIZE <= MAX_TRACE_LINE
    requires pr.formatAt(FormatOf(e[..HEADER_SIZE])) == Flatten(ts)
    requires e[HEADER_SIZE..HEADER_SIZE + |Payload(vals)|] == Payload(vals)
    requires index as nat + |e| <= size as nat
    ensures PrintEntry(pr, index, size, e, s)
         == Printed(true, pr.stamp(e[..HEADER_SIZE]) + Expected(ts, vals, pr.render), index + |e|,
                    s.(lastPrintedId := IdOf(e[..HEADER_SIZE])))
  {
    var limit := |e| - TRAILER_SIZE;
    SpellsFlatten(Flatten(ts), ts);
    Decode(Flatten(ts), ts, vals, e, HEADER_SIZE, HEADER_SIZE + |Payload(vals)|, limit, pr.render);
    GuardInert(Flatten(ts), 0, e, HEADER_SIZE, limit, index, size, pr.render);
    assert s.(stringCorrupted := s.stringCorrupted + 0, lastPrintedId := IdOf(e[..HEADER_SIZE]))
        == s.(lastPrintedId := IdOf(e[..HEADER_SIZE]));
  }

  /** The header bytes of a laid-out entry give back its format handle and id, and its payload follows them. */
  lemma EntryFields(h: Header, payload: seq<u8>)
    ensures var e := EntryBytes(h, payload);
      && e[..HEADER_SIZE] == HeaderBytes(h) && FormatOf(e[..HEADER_SIZE]) == h.format && IdOf(e[..HEADER_SIZE]) == h.id
      && e[HEADER_SIZE..HEADER_SIZE + |payload|] == payload
  {
    var e := EntryBytes(h, payload);
    var hb := HeaderBytes(h);
    assert e[..HEADER_SIZE] == hb;
    ParseHeaderBytes(h);
    FormatOfRead(hb);
    IdOfRead(hb);
    assert e[HEADER_SIZE..HEADER_SIZE + |payload|] == payload;
  }

  /**
   * The round trip through the arena: an entry whose payload holds the
   * values of a well-formed format (as the encoder stores them, see
   * FormatGrammar.Encode) prints, from its own index, the text the
   * decoder renders after the timestamp prefix, reports the next entry right
   * after its trailer, and touches no error counter.
   */
  lemma TracedEntryPrints(a: seq<u8>, pr: Printer, index: u32, h: Header, ts: Tokens, vals: seq<Value>, payload: seq<u8>,
                          retry: bool, s: Stats)
    requires ArenaOk(a) && WellFormed(ts) && Fits(ts, vals) && |vals| == Count(ts) && pr.formatAt(h.format) == Flatten(ts)
    requires payload == Payload(vals) && h.pattern == START_PATTERN
    requires h.length == HEADER_SIZE + |payload| + TRAILER_SIZE <= MAX_TRACE_LINE
    requires Window(a, Offset(a, index), h.length) == EntryBytes(h, payload)
    requires index as nat + h.length <= |a|
    ensures PrintAt(a, pr, index, retry, s)
         == Printed(true, pr.stamp(HeaderBytes(h)) + Expected(ts, vals, pr.render), index + h.length,
                    s.(lastPrintedId := h.id))
  {
    var off := Offset(a, index);
    EntryAt(a, off, h, payload);
    LengthOfRead(HeaderBytes(h));
    PrintAtValid(a, pr, index, retry, s, EntryBytes(h, payload));
    EntryPrints(pr, index, |a| as u32, h, ts, vals, payload, s);
  }
  // ---------------------------------------------------------------- entries across the arena's end

  /**
   * Entry bytes whose payload holds the values of a well-formed format,
   * printed from an index whose entry runs past the arena's end: the print
   * succeeds, but the next index it reports lies past the arena. Either the
   * guard cuts the decoding short once index + buf_index passes the size,
   * or the whole payload is read and the next index is index + length.
   */
  lemma StraddlingPayloadPrints(pr: Printer, index: u32, size: u32, e: seq<u8>, ts: Tokens, vals: seq<Value>, s: Stats)
    requires WellFormed(ts) && Fits(ts, vals) && |vals| == Count(ts)
    requires |e| == HEADER_SIZE + |Payload(vals)| + TRAILER_SIZE <= MAX_TRACE_LINE
    requires pr.formatAt(FormatOf(e[..HEADER_SIZE])) == Flatten(ts)
    requires e[HEADER_SIZE..HEADER_SIZE + |Payload(vals)|] == Payload(vals)
    requires SizeOk(size as nat) && index < size && size as nat < index as nat + |e|
    ensures PrintEntry(pr, index, size, e, s).ok && PrintEntry(pr, index, size, e, s).next as nat > size as nat
  {
    var f := Flatten(ts);
    var limit := |e| - TRAILER_SIZE;
    SpellsFlatten(f, ts);
    var idx' := HEADER_SIZE + |Payload(vals)|;
    Decode(f, ts, vals, e, HEADER_SIZE, idx', limit, pr.render);
    GuardCuts(f, 0, e, HEADER_SIZE, limit, index, size, pr.render);
    var r := DecodeFrom(f, 0, e, HEADER_SIZE, limit, StopPast(index, size), pr.render);
    OutcomePast(pr, index, size, e[..HEADER_SIZE], r, idx', s);
    assert PrintEntry(pr, index, size, e, s) == Outcome(pr, index, e[..HEADER_SIZE], r, s);
  }

  /** A decoding that reads up to idx', or is cut short past the arena, is reported with a next index past it. */
  lemma OutcomePast(pr: Printer, index: u32, size: u32, first: seq<u8>, r: Result<DecodeOut, DecodeError>, idx': nat, s: Stats)
    requires |first| == HEADER_SIZE && r.Ok? && r.value.index <= MAX_TRACE_LINE
    requires r.value.index == idx' || Stops(StopPast(index, size), r.value.index)
    requires SizeOk(size as nat) && index < size && size as nat < index as nat + idx' + TRAILER_SIZE
    ensures Outcome(pr, index, first, r, s).ok && Outcome(pr, index, first, r, s).next as nat > size as nat
  {
  }

  /**
   * An entry traceVargs wrote across the arena's end (the circular copy
   * wraps to offset 0) is valid and prints, but the next index printAtIndex
   * reports for it lies past the arena.
   */
  lemma StraddlingEntryPrints(a: seq<u8>, pr: Printer, index: u32, h: Header, ts: Tokens, vals: seq<Value>,
                              payload: seq<u8>, retry: bool, s: Stats)
    requires ArenaOk(a) && WellFormed(ts) && Fits(ts, vals) && |vals| == Count(ts) && pr.formatAt(h.format) == Flatten(ts)
    requires payload == Payload(vals) && h.pattern == START_PATTERN
    requires h.length == HEADER_SIZE + |payload| + TRAILER_SIZE <= MAX_TRACE_LINE
    requires Window(a, Offset(a, index), h.length) == EntryBytes(h, payload)
    requires (index as nat) < |a| < index as nat + h.length
    ensures PrintAt(a, pr, index, retry, s).ok && PrintAt(a, pr, index, retry, s).next as nat > |a|
  {
    var off := Offset(a, index);
    var e := EntryBytes(h, payload);
    EntryAt(a, off, h, payload);
    LengthOfRead(HeaderBytes(h));
    PrintAtValid(a, pr, index, retry, s, e);
    EntryFields(h, payload);
    StraddlingPayloadPrints(pr, index, |a| as u32, e, ts, vals, s);
  }

  /**
   * dumpRange never writes such an entry when its range starts there: the
   * loop leaves at once, returning the entry's index with nothing written.
   * The collector's next range then starts at that index again.
   */
  lemma StraddlingEntryNotDumped(a: seq<u8>, pr: Printer, index: u32, h: Header, ts: Tokens, vals: seq<Value>,
                                 payload: seq<u8>, last: u32, cont: bool, s: Stats)
    requires ArenaOk(a) && WellFormed(ts) && Fits(ts, vals) && |vals| == Count(ts) && pr.formatAt(h.format) == Flatten(ts)
    requires payload == Payload(vals) && h.pattern == START_PATTERN
    requires h.length == HEADER_SIZE + |payload| + TRAILER_SIZE <= MAX_TRACE_LINE
    requires Window(a, Offset(a, index), h.length) == EntryBytes(h, payload)
    requires index <= last && (last as nat) < |a| < index as nat + h.length
    ensures DumpRange(a, pr, index, last, cont, s) == Dumped(index, [], PrintAt(a, pr, index, !cont, s).stats)
  {
    StraddlingEntryPrints(a, pr, index, h, ts, vals, payload, !cont, s);
    BoundsWithin(index, last, |a| as u32);
    var b := Bounds(index, last, |a| as u32);
    PrintOfAdvances(a, pr, b.1);
    DumpLeavesPastEnd(PrintOf(a, pr), ScanOf(a), index, b.1, cont, s);
  }

  /** A print whose next index lies past the end ends the dump with nothing written. */
  lemma DumpLeavesPastEnd(show: PrintFn, resync: ResyncFn, i: u32, end: nat, cont: bool, s: Stats)
    requires Advances(show, end) && i as nat < end
    requires show(i, !cont, s).ok && show(i, !cont, s).next as nat > end
    ensures DumpFrom(show, resync, i, end, cont, s) == Dumped(i, [], show(i, !cont, s).stats)
  {
  }
}
