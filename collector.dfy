// The collector (collector.cpp): the bookmark arithmetic that decides when
// the ring buffer has enough unread bytes to collect, which index ranges a
// collection dumps, and the enable / idle-flush state of the collector.
module Collector {
  import opened Bytes
  import opened Ring
  import opened LogSpec
  import opened AsyncLog
  import Arith

  /** Collect::DEFAULT_BUFFER_THRESHOLD_PCT: collect as soon as anything is pending. */
  const DEFAULT_BUFFER_THRESHOLD_PCT: u32 := 0
  /** Collect::SLEEP_USEC: one idle tick sleeps 100 ms. */
  const SLEEP_USEC: nat := 100000
  /** Collect::FLUSH_IN_SEC: the stream is flushed after ten seconds of idling. */
  const FLUSH_IN_SEC: nat := 10
  /** The idle ticks idle() lets pass before it flushes: (FLUSH_IN_SEC * 1000000) / SLEEP_USEC. */
  const FLUSH_TICKS: nat := (FLUSH_IN_SEC * 1000000) / SLEEP_USEC

  // ---------------------------------------------------------------- threshold

  /** getBufferThreshold(): pct percent of the arena size, the product taken in 32 bits. */
  function Threshold(pct: u32, size: u32): u32 {
    Wrap32(pct as int * size as int) / 100
  }

  /** Unless the product overflows, the threshold is pct percent of the size rounded down, and no more than the size for pct <= 100. */
  lemma ThresholdPercent(pct: u32, size: u32)
    requires pct as int * size as int <= UINT32_MAX as int
    ensures Threshold(pct, size) as int * 100 <= pct as int * size as int < Threshold(pct, size) as int * 100 + 100
    ensures pct <= 100 ==> Threshold(pct, size) <= size
  {
    var x := pct as int * size as int;
    assert Threshold(pct, size) as int == x / 100;
    if pct <= 100 {
      MulAtMostHundred(pct as int, size as int);
    }
  }

  lemma MulAtMostHundred(p: int, n: int)
    requires 0 <= p <= 100 && 0 <= n
    ensures p * n <= 100 * n
  {
    assert 100 * n - p * n == (100 - p) * n;
  }

  // ---------------------------------------------------------------- pending bytes

  /** How far offset o lies past offset from, going round an arena of size bytes. */
  function Dist(o: nat, from: nat, size: nat): nat
    requires o < size && from < size
  {
    if from <= o then o - from else o + size - from
  }

  lemma DistMod(o: nat, from: nat, size: nat)
    requires o < size && from < size
    ensures Dist(o, from, size) < size
    ensures Dist(o, from, size) == (o - from) % size
  {
    if from <= o {
      Arith.ModBelow(o - from, size);
    } else {
      Arith.ModNegOnce(o - from, size);
    }
  }

  /** The bytes written since the bookmark, counted round the arena. */
  function Pending(last: u32, book: u32, size: u32): nat
    requires size > 0
  {
    Dist(Normalize(last, size) as nat, Normalize(book, size) as nat, size as nat)
  }

  /** shallCollect(), as intended: more than the threshold's bytes written since the bookmark. */
  function CollectDue(last: u32, book: u32, size: u32, threshold: u32): bool
    requires size > 0
  {
    Pending(last, book, size) > threshold as nat
  }

  /**
   * shallCollect() as written: equal normalised indices collect nothing;
   * otherwise the 32-bit difference is compared with the threshold, and
   * then the "wrapped-around" sum of the bytes from the bookmark to
   * normalize(0xffffffff) and the bytes before the cursor.
   */
  function ShallCollectAsWritten(last: u32, book: u32, size: u32, threshold: u32): bool
    requires size > 0
  {
    var nl, nb := Normalize(last, size), Normalize(book, size);
    if nl == nb then false
    else if Wrap32(nl as int - nb as int) > threshold then true
    else
      var sizeBlockEnd := Wrap32(Normalize(UINT32_MAX, size) as int - nb as int);
      var sizeBlockStart := nl;
      Wrap32(sizeBlockEnd as int + sizeBlockStart as int) > threshold
  }

  /** What shallCollect() decides: nothing is pending exactly when the normalised indices agree, and the pending count is the distance mod size. */
  lemma ShallCollectMeaning(last: u32, book: u32, size: u32, threshold: u32)
    requires size > 0
    ensures Pending(last, book, size) < size as nat
    ensures Pending(last, book, size) == (Normalize(last, size) as int - Normalize(book, size) as int) % size as int
    ensures Pending(last, book, size) == 0 <==> Normalize(last, size) == Normalize(book, size)
    ensures CollectDue(last, book, size, threshold) ==> Normalize(last, size) != Normalize(book, size)
  {
    DistMod(Normalize(last, size) as nat, Normalize(book, size) as nat, size as nat);
  }

  /** With the default threshold of 0, both readings collect exactly when the normalised indices differ. */
  lemma ShallCollectAtZero(last: u32, book: u32, size: u32)
    requires size > 0
    ensures ShallCollectAsWritten(last, book, size, 0) <==> Normalize(last, size) != Normalize(book, size)
    ensures CollectDue(last, book, size, 0) <==> Normalize(last, size) != Normalize(book, size)
  {
    ShallCollectMeaning(last, book, size, 0);
  }

  /** As written, shallCollect() collects 10 pending bytes against a threshold of 4096 (half of an 8192-byte arena). */
  lemma ShallCollectAsWrittenEager()
    ensures Threshold(50, 8192) == 4096 && Pending(10, 0, 8192) == 10
    ensures ShallCollectAsWritten(10, 0, 8192, Threshold(50, 8192))
    ensures !CollectDue(10, 0, 8192, Threshold(50, 8192))
  {
    assert Normalize(UINT32_MAX, 8192) == 8191;
  }

  // ---------------------------------------------------------------- ranges

  /**
   * The ranges collect() hands to dumpRange, as (start, stop) pairs: it
   * dumps start .. stop - 1 and records the pair as the previous range.
   */
  type Range = (u32, u32)

  /**
   * collect() as written: nothing when the normalised bookmark and end
   * agree, one range up to the end when the bookmark is below it, and when
   * wrapped the top of the arena from the bookmark followed by the bottom
   * up to the end.
   */
  function RangesAsWritten(book: u32, end: u32, size: u32): seq<Range>
    requires size > 0
  {
    var nb, ne := Normalize(book, size), Normalize(end, size);
    if nb == ne then []
    else if nb < ne then [(book, end)]
    else [(book, size), (0, end)]
  }

  /** collect() as intended: when the end is at offset 0 the bottom range is empty and is left out. */
  function Ranges(book: u32, end: u32, size: u32): seq<Range>
    requires size > 0
  {
    var nb, ne := Normalize(book, size), Normalize(end, size);
    if nb == ne then []
    else if nb < ne then [(book, end)]
    else if ne == 0 then [(book, size)]
    else [(book, size), (0, end)]
  }

  /** The offsets dumpRange(start, stop - 1) visits: those from its normalised start up to its normalised end. */
  predicate Covers(r: Range, o: nat, size: u32)
    requires size > 0
  {
    var b := Bounds(r.0, Wrap32(r.1 as int - 1), size);
    b.0 as nat <= o < b.1 as nat
  }

  /** How many of the ranges visit offset o. */
  function CoverCount(rs: seq<Range>, o: nat, size: u32): nat
    requires size > 0
  {
    if rs == [] then 0 else (if Covers(rs[0], o, size) then 1 else 0) + CoverCount(rs[1..], o, size)
  }

  /** The range from the bookmark up to an end past it covers the offsets in between. */
  lemma CoversUpTo(book: u32, end: u32, size: u32, o: nat)
    requires size > 0 && o < size as nat && Normalize(book, size) < Normalize(end, size)
    ensures Covers((book, end), o, size) <==> Normalize(book, size) as nat <= o < Normalize(end, size) as nat
  {
    StopBefore(end, size);
  }

  /** The range from the bookmark up to the arena size covers the top of the arena. */
  lemma CoversTop(book: u32, size: u32, o: nat)
    requires size > 0 && o < size as nat
    ensures Covers((book, size), o, size) <==> Normalize(book, size) as nat <= o
  {
    Arith.ModBelow(size as int - 1, size as int);
  }

  /** The bottom range up to an end off offset 0 covers the offsets below it. */
  lemma CoversBottom(end: u32, size: u32, o: nat)
    requires size > 0 && o < size as nat && Normalize(end, size) > 0
    ensures Covers((0, end), o, size) <==> o < Normalize(end, size) as nat
  {
    StopBefore(end, size);
  }

  /** One before an end off offset 0 normalises to one before the end's offset. */
  lemma StopBefore(end: u32, size: u32)
    requires size > 0 && Normalize(end, size) > 0
    ensures end > 0 && Normalize(Wrap32(end as int - 1), size) as int == Normalize(end, size) as int - 1
  {
    var q, r := end as int / size as int, end as int % size as int;
    assert end as int == q * size as int + r;
    assert Wrap32(end as int - 1) as int == end as int - 1;
    Arith.ModUnique(end as int - 1, size as int, q, r - 1);
  }

  /**
   * The ranges collect() dumps visit each offset written since the bookmark
   * exactly once, and no other offset.
   */
  lemma RangesCoverPending(book: u32, end: u32, size: u32, o: nat)
    requires size > 0 && o < size as nat
    ensures CoverCount(Ranges(book, end, size), o, size)
         == if Dist(o, Normalize(book, size) as nat, size as nat) < Pending(end, book, size) then 1 else 0
  {
    var nb, ne := Normalize(book, size), Normalize(end, size);
    if nb == ne {
      assert Ranges(book, end, size) == [];
    } else if nb < ne {
      CoverOne(book, end, size, o, nb as nat, ne as nat);
    } else if ne == 0 {
      CoverTopOnly(book, end, size, o, nb as nat);
    } else {
      CoverTwo(book, end, size, o, nb as nat, ne as nat);
    }
  }

  lemma CoverOne(book: u32, end: u32, size: u32, o: nat, nb: nat, ne: nat)
    requires size > 0 && o < size as nat && nb == Normalize(book, size) as nat && ne == Normalize(end, size) as nat && nb < ne
    ensures CoverCount(Ranges(book, end, size), o, size) == if Dist(o, nb, size as nat) < Dist(ne, nb, size as nat) then 1 else 0
  {
    var rs := Ranges(book, end, size);
    assert rs == [(book, end)];
    CoversUpTo(book, end, size, o);
    assert CoverCount(rs, o, size) == (if Covers((book, end), o, size) then 1 else 0) + CoverCount([], o, size);
  }

  lemma CoverTopOnly(book: u32, end: u32, size: u32, o: nat, nb: nat)
    requires size > 0 && o < size as nat && nb == Normalize(book, size) as nat && Normalize(end, size) == 0 && nb > 0
    ensures CoverCount(Ranges(book, end, size), o, size) == if Dist(o, nb, size as nat) < Dist(0, nb, size as nat) then 1 else 0
  {
    var rs := Ranges(book, end, size);
    assert rs == [(book, size)];
    CoversTop(book, size, o);
    assert CoverCount(rs, o, size) == (if Covers((book, size), o, size) then 1 else 0) + CoverCount([], o, size);
  }

  lemma CoverTwo(book: u32, end: u32, size: u32, o: nat, nb: nat, ne: nat)
    requires size > 0 && o < size as nat && nb == Normalize(book, size) as nat && ne == Normalize(end, size) as nat && 0 < ne < nb
    ensures CoverCount(Ranges(book, end, size), o, size) == if Dist(o, nb, size as nat) < Dist(ne, nb, size as nat) then 1 else 0
  {
    var rs := Ranges(book, end, size);
    assert rs == [(book, size), (0, end)];
    CoversTop(book, size, o);
    CoversBottom(end, size, o);
    assert rs[1..] == [(0, end)];
    assert CoverCount(rs[1..], o, size) == (if Covers((0, end), o, size) then 1 else 0) + CoverCount([], o, size);
  }

  /**
   * As written, a collection whose end sits at offset 0 of an 8192-byte
   * arena dumps offset 5000 twice and offset 100, which is not pending,
   * once more.
   */
  lemma RangesAsWrittenRepeat()
    ensures Pending(8192, 4000, 8192) == 4192
    ensures CoverCount(RangesAsWritten(4000, 8192, 8192), 5000, 8192) == 2
    ensures CoverCount(RangesAsWritten(4000, 8192, 8192), 100, 8192) == 1
    ensures CoverCount(Ranges(4000, 8192, 8192), 5000, 8192) == 1
    ensures CoverCount(Ranges(4000, 8192, 8192), 100, 8192) == 0
  {
    var rs := RangesAsWritten(4000, 8192, 8192);
    assert rs == [(4000, 8192), (0, 8192)];
    assert rs[1..] == [(0, 8192)];
    assert Normalize(8191, 8192) == 8191;
    RangesCoverPending(4000, 8192, 8192, 5000);
    RangesCoverPending(4000, 8192, 8192, 100);
  }

  // ---------------------------------------------------------------- collect

  /** What a collection leaves: the new bookmark, the previous range, the lines written and the counters. */
  datatype Collected = Collected(bookmark: u32, prev: Range, lines: seq<Line>, stats: Stats)

  /** dumpRange(start, end, true, stream) as collect() calls it: the outcome, given the counters before. */
  type DumpFn = (u32, u32, Stats) -> Dumped

  /** dumpRange over arena a, continuing on failure. */
  function DumpOf(a: seq<u8>, pr: Printer): DumpFn {
    (start: u32, end: u32, s: Stats) => if ArenaOk(a) then LogSpec.DumpRange(a, pr, start, end, true, s) else Dumped(start, [], s)
  }

  /**
   * dump over each range in turn, each call with the counters the last one
   * left; the lines follow one another and the result is the last call's.
   */
  function DumpAll(dump: DumpFn, rs: seq<Range>, s: Stats): Dumped
    requires rs != []
  {
    var first := dump(rs[0].0, Wrap32(rs[0].1 as int - 1), s);
    if |rs| == 1 then first
    else var rest := DumpAll(dump, rs[1..], first.stats); rest.(lines := first.lines + rest.lines)
  }

  /** collect() with dump for dumpRange: the bookmark moves to the end when nothing is pending, and to the last dump's result otherwise. */
  function CollectBy(dump: DumpFn, size: u32, book: u32, end: u32, prev: Range, s: Stats): Collected
    requires size > 0
  {
    var rs := Ranges(book, end, size);
    if rs == [] then Collected(end, prev, [], s)
    else var d := DumpAll(dump, rs, s); Collected(d.result, rs[|rs| - 1], d.lines, d.stats)
  }

  /**
   * dump is dumpRange over arena a continuing on failure, as the log runs
   * it: the collector's contracts are stated for any such dump.
   */
  ghost predicate Dumps(dump: DumpFn, a: seq<u8>, pr: Printer) {
    && ArenaOk(a)
    && forall start: u32, end: u32, s: Stats {:trigger LogSpec.DumpRange(a, pr, start, end, true, s)} ::
         dump(start, end, s) == LogSpec.DumpRange(a, pr, start, end, true, s)
  }

  /** dumpRange itself is such a dump. */
  lemma DumpsOf(a: seq<u8>, pr: Printer)
    requires ArenaOk(a)
    ensures Dumps(DumpOf(a, pr), a, pr)
  {
  }

  /** collect() when nothing is pending: no dump, and the bookmark moves to the end. */
  lemma CollectByNone(dump: DumpFn, size: u32, book: u32, end: u32, prev: Range, s: Stats)
    requires size > 0 && Normalize(book, size) == Normalize(end, size)
    ensures CollectBy(dump, size, book, end, prev, s) == Collected(end, prev, [], s)
  {
  }

  /** collect() when the end is past the bookmark: one dump up to the end. */
  lemma CollectByOne(dump: DumpFn, size: u32, book: u32, end: u32, prev: Range, s: Stats)
    requires size > 0 && Normalize(book, size) < Normalize(end, size)
    ensures var d := dump(book, Wrap32(end as int - 1), s);
      CollectBy(dump, size, book, end, prev, s) == Collected(d.result, (book, end), d.lines, d.stats)
  {
    assert Ranges(book, end, size) == [(book, end)];
  }

  /** collect() when wrapped to offset 0: one dump up to the top of the arena. */
  lemma CollectByTop(dump: DumpFn, size: u32, book: u32, end: u32, prev: Range, s: Stats)
    requires size > 0 && Normalize(book, size) > Normalize(end, size) == 0
    ensures var d := dump(book, Wrap32(size as int - 1), s);
      CollectBy(dump, size, book, end, prev, s) == Collected(d.result, (book, size), d.lines, d.stats)
  {
    assert Ranges(book, end, size) == [(book, size)];
  }

  /** collect() when wrapped: the top of the arena, then the bottom up to the end, whose result is kept. */
  lemma CollectByTwo(dump: DumpFn, size: u32, book: u32, end: u32, prev: Range, s: Stats)
    requires size > 0 && Normalize(book, size) > Normalize(end, size) > 0
    ensures var top := dump(book, Wrap32(size as int - 1), s);
      var bottom := dump(0, Wrap32(end as int - 1), top.stats);
      CollectBy(dump, size, book, end, prev, s) == Collected(bottom.result, (0, end), top.lines + bottom.lines, bottom.stats)
  {
    var rs := Ranges(book, end, size);
    assert rs == [(book, size), (0, end)];
    assert rs[1..] == [(0, end)];
    var top := dump(book, Wrap32(size as int - 1), s);
    assert DumpAll(dump, rs[1..], top.stats) == dump(0, Wrap32(end as int - 1), top.stats);
  }

  lemma {:induction false} EntryCountAppend(x: seq<Line>, y: seq<Line>)
    ensures EntryCount(x + y) == EntryCount(x) + EntryCount(y)
    decreases |x|
  {
    if x != [] {
      var h := if x[0].Entry? then 1 else 0;
      assert (x + y)[0] == x[0];
      assert (x + y)[1..] == x[1..] + y;
      assert EntryCount(x + y) == h + EntryCount(x[1..] + y);
      assert EntryCount(x) == h + EntryCount(x[1..]);
      EntryCountAppend(x[1..], y);
    } else {
      assert x + y == y;
    }
  }

  /** A dump that adds to collectCount_ exactly the entries it writes. */
  ghost predicate CountsEntries(dump: DumpFn) {
    forall start: u32, end: u32, s: Stats :: dump(start, end, s).stats.collected == s.collected + EntryCount(dump(start, end, s).lines)
  }

  /** Each dumpRange adds to collectCount_ the entries it writes. */
  lemma DumpRangeCounts(a: seq<u8>, pr: Printer, start: u32, end: u32, cont: bool, s: Stats)
    requires ArenaOk(a)
    ensures var d := LogSpec.DumpRange(a, pr, start, end, cont, s); d.stats.collected == s.collected + EntryCount(d.lines)
  {
    var b := Bounds(start, end, |a|);
    PrintOfAdvances(a, pr, b.1 as nat);
    PrintOfKeepsCollected(a, pr);
    DumpCollects(PrintOf(a, pr), ScanOf(a), b.0, b.1 as nat, cont, s);
  }

  lemma DumpsCount(dump: DumpFn, a: seq<u8>, pr: Printer)
    requires Dumps(dump, a, pr)
    ensures CountsEntries(dump)
  {
    forall start: u32, end: u32, s: Stats
      ensures dump(start, end, s).stats.collected == s.collected + EntryCount(dump(start, end, s).lines)
    {
      DumpRangeCounts(a, pr, start, end, true, s);
    }
  }

  lemma {:induction false} DumpAllCounts(dump: DumpFn, rs: seq<Range>, s: Stats)
    requires rs != [] && CountsEntries(dump)
    ensures DumpAll(dump, rs, s).stats.collected == s.collected + EntryCount(DumpAll(dump, rs, s).lines)
    decreases |rs|
  {
    if |rs| > 1 {
      var first := dump(rs[0].0, Wrap32(rs[0].1 as int - 1), s);
      DumpAllCounts(dump, rs[1..], first.stats);
      EntryCountAppend(first.lines, DumpAll(dump, rs[1..], first.stats).lines);
    }
  }

  /** A collection adds to collectCount_ exactly the entries it writes to the stream. */
  lemma CollectCounts(dump: DumpFn, size: u32, book: u32, end: u32, prev: Range, s: Stats)
    requires size > 0 && CountsEntries(dump)
    ensures CollectBy(dump, size, book, end, prev, s).stats.collected == s.collected + EntryCount(CollectBy(dump, size, book, end, prev, s).lines)
  {
    var rs := Ranges(book, end, size);
    if rs != [] {
      DumpAllCounts(dump, rs, s);
    }
  }

  // ---------------------------------------------------------------- idle

  /** idle(): the counter after one more tick, and whether the stream is flushed. */
  function IdleStep(counter: nat): (nat, bool) {
    if counter + 1 > FLUSH_TICKS then (0, true) else (counter + 1, false)
  }

  /** n idle ticks from counter: the counter left and the number of flushes. */
  function IdleRun(counter: nat, n: nat): (nat, nat)
    decreases n
  {
    if n == 0 then (counter, 0)
    else
      var (c, flushed) := IdleStep(counter);
      var (c', k) := IdleRun(c, n - 1);
      (c', k + if flushed then 1 else 0)
  }

  /** Idling flushes once every FLUSH_TICKS + 1 ticks: the counter runs modulo FLUSH_TICKS + 1 and never passes FLUSH_TICKS. */
  lemma {:induction false} IdleRunPeriod(counter: nat, n: nat)
    requires counter <= FLUSH_TICKS
    ensures IdleRun(counter, n).0 == (counter + n) % (FLUSH_TICKS + 1)
    ensures IdleRun(counter, n).1 == (counter + n) / (FLUSH_TICKS + 1)
    ensures IdleRun(counter, n).0 <= FLUSH_TICKS
    decreases n
  {
    var m := FLUSH_TICKS + 1;
    if n == 0 {
      Arith.ModUnique(counter, m, 0, counter);
    } else {
      var c := IdleStep(counter).0;
      IdleRunPeriod(c, n - 1);
      var q, r := (c + n - 1) / m, (c + n - 1) % m;
      if counter + 1 > FLUSH_TICKS {
        Arith.ModUnique(counter + n, m, q + 1, r);
      } else {
        Arith.ModUnique(counter + n, m, q, r);
      }
    }
  }

  // ---------------------------------------------------------------- the collector

  /** Log::Collect: the collector's bookmark, threshold, last ranges and idle counter. */
  class Collect {
    const log: Log
    /** collectorBookmark_: where the next collection starts. */
    var bookmark: u32
    /** bufferThresholdPct_ */
    var thresholdPct: u32
    /** prevCollectRangeStart_ and prevCollectRangeEnd_: the range handed to the last dumpRange. */
    var prevStart: u32
    var prevEnd: u32
    /** enable_ */
    var enable: bool
    /** lastFlushCounter_: idle ticks since the stream was last flushed. */
    var lastFlushCounter: u32

    ghost predicate Valid()
      reads this, log, log.ring
    {
      log.Valid() && lastFlushCounter as nat <= FLUSH_TICKS
    }

    /** Collect(log, enable): the default threshold, then setEnable(enable) from a disabled collector. */
    constructor (log: Log, enabled: bool)
      requires log.Valid()
      ensures Valid() && this.log == log && enable == enabled
      ensures bookmark == (if enabled then log.lastWritten else 0)
      ensures thresholdPct == DEFAULT_BUFFER_THRESHOLD_PCT && prevStart == 0 && prevEnd == 0 && lastFlushCounter == 0
    {
      this.log := log;
      bookmark := 0;
      thresholdPct := DEFAULT_BUFFER_THRESHOLD_PCT;
      prevStart := 0;
      prevEnd := 0;
      enable := false;
      lastFlushCounter := 0;
      new;
      if enabled {
        ResetBookmark();
        enable := true;
      }
    }

    /** idle(): one more tick; past FLUSH_TICKS ticks the stream is flushed and the counter restarts. */
    method Idle()
      requires Valid()
      modifies this`lastFlushCounter, log`flushes
      ensures Valid()
      ensures var (c, flushed) := IdleStep(old(lastFlushCounter) as nat);
        lastFlushCounter as nat == c && log.flushes == old(log.flushes) + (if flushed then 1 else 0)
    {
      lastFlushCounter := lastFlushCounter + 1;
      if lastFlushCounter as nat > (FLUSH_IN_SEC * 1000000) / SLEEP_USEC {
        log.FlushStream();
        lastFlushCounter := 0;
      }
    }

    /** resetBookmark(): the bookmark moves to the last-written index. */
    method ResetBookmark()
      modifies this`bookmark
      ensures bookmark == log.lastWritten
    {
      bookmark := log.lastWritten;
    }

    /** setBufferThresholdPct(value) */
    method SetBufferThresholdPct(value: u32)
      modifies this`thresholdPct
      ensures thresholdPct == value
    {
      if thresholdPct == value {
        return;
      }
      thresholdPct := value;
    }

    /** getBufferThreshold() */
    method GetBufferThreshold() returns (t: u32)
      requires Valid()
      ensures t == Threshold(thresholdPct, log.ring.size)
    {
      t := Wrap32(thresholdPct as int * log.ring.size as int) / 100;
    }

    /** shallCollect(), as intended: more than the threshold's bytes are pending. */
    method ShallCollect() returns (b: bool)
      requires Valid()
      ensures b == CollectDue(log.lastWritten, bookmark, log.ring.size, Threshold(thresholdPct, log.ring.size))
    {
      var size := log.ring.size;
      var nl, nb := Normalize(log.lastWritten, size), Normalize(bookmark, size);
      var threshold := GetBufferThreshold();
      if nb <= nl {
        b := nl - nb > threshold;
      } else {
        b := nl as int + size as int - nb as int > threshold as int;
      }
    }

    /**
     * collect(): dump what was written since the bookmark, in one range or,
     * wrapped, in two, and move the bookmark to where the last dump left off.
     */
    method Collect(ghost dump: DumpFn) returns (r: u32)
      requires Valid() && Dumps(dump, log.ring.Arena(), log.printer)
      modifies this`bookmark, this`prevStart, this`prevEnd, log`stats, log`output
      ensures Valid()
      ensures var c := CollectBy(dump, log.ring.size, old(bookmark), log.lastWritten, (old(prevStart), old(prevEnd)), old(log.stats));
        r == c.bookmark && bookmark == c.bookmark && (prevStart, prevEnd) == c.prev
        && log.stats == c.stats && log.output == old(log.output) + c.lines
    {
      ghost var a := log.ring.Arena();
      var size := log.ring.size;
      var end := log.lastWritten;
      var nb, ne := Normalize(bookmark, size), Normalize(end, size);
      if nb == ne {
        CollectByNone(dump, size, bookmark, end, (prevStart, prevEnd), log.stats);
      } else if nb < ne {
        CollectByOne(dump, size, bookmark, end, (prevStart, prevEnd), log.stats);
        end := DumpOne(dump, a, bookmark, end);
      } else if ne == 0 {
        CollectByTop(dump, size, bookmark, end, (prevStart, prevEnd), log.stats);
        end := DumpOne(dump, a, bookmark, size);
      } else {
        CollectByTwo(dump, size, bookmark, end, (prevStart, prevEnd), log.stats);
        ghost var out, top := log.output, dump(bookmark, Wrap32(size as int - 1), log.stats);
        var rangeEnd := end;
        end := DumpOne(dump, a, bookmark, size);
        end := DumpOne(dump, a, 0, rangeEnd);
        Associative(out, top.lines, dump(0, Wrap32(rangeEnd as int - 1), top.stats).lines);
      }
      bookmark := end;
      r := end;
    }

    /** One range of collect(): record it as the previous range, then dumpRange(start, stop - 1) continuing on failure. */
    method DumpOne(ghost dump: DumpFn, ghost a: seq<u8>, start: u32, stop: u32) returns (r: u32)
      requires Valid() && a == log.ring.Arena() && Dumps(dump, a, log.printer)
      modifies this`prevStart, this`prevEnd, log`stats, log`output
      ensures Valid() && a == log.ring.Arena()
      ensures var d := dump(start, Wrap32(stop as int - 1), old(log.stats));
        r == d.result && log.stats == d.stats && log.output == old(log.output) + d.lines
      ensures prevStart == start && prevEnd == stop
    {
      prevStart, prevEnd := start, stop;
      r := log.DumpRange(start, Wrap32(stop as int - 1), true);
    }

    /** flush(): collect, then flush the stream. */
    method Flush(ghost dump: DumpFn)
      requires Valid() && Dumps(dump, log.ring.Arena(), log.printer)
      modifies this`bookmark, this`prevStart, this`prevEnd, log`stats, log`output, log`flushes
      ensures Valid()
      ensures var c := CollectBy(dump, log.ring.size, old(bookmark), log.lastWritten, (old(prevStart), old(prevEnd)), old(log.stats));
        bookmark == c.bookmark && (prevStart, prevEnd) == c.prev
        && log.stats == c.stats && log.output == old(log.output) + c.lines && log.flushes == old(log.flushes) + 1
    {
      var _ := Collect(dump);
      log.FlushStream();
    }

    /**
     * setEnable(enabled): nothing when already so; enabling moves the
     * bookmark to the last-written index first; disabling flushes first.
     */
    method SetEnable(enabled: bool, ghost dump: DumpFn)
      requires Valid() && Dumps(dump, log.ring.Arena(), log.printer)
      modifies this`enable, this`bookmark, this`prevStart, this`prevEnd, log`stats, log`output, log`flushes
      ensures Valid() && enable == enabled
      ensures enabled == old(enable) ==>
        bookmark == old(bookmark) && prevStart == old(prevStart) && prevEnd == old(prevEnd)
        && log.stats == old(log.stats) && log.output == old(log.output) && log.flushes == old(log.flushes)
      ensures enabled && !old(enable) ==>
        bookmark == log.lastWritten && prevStart == old(prevStart) && prevEnd == old(prevEnd)
        && log.stats == old(log.stats) && log.output == old(log.output) && log.flushes == old(log.flushes)
      ensures !enabled && old(enable) ==>
        var c := CollectBy(dump, log.ring.size, old(bookmark), log.lastWritten, (old(prevStart), old(prevEnd)), old(log.stats));
        bookmark == c.bookmark && (prevStart, prevEnd) == c.prev
        && log.stats == c.stats && log.output == old(log.output) + c.lines && log.flushes == old(log.flushes) + 1
    {
      if enabled == enable {
        return;
      }
      if enabled {
        ResetBookmark();
        enable := enabled;
      } else {
        Flush(dump);
        enable := enabled;
      }
    }
  }
}
