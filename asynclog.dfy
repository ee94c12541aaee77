// The logger (asynclog.cpp): traceVargs writes encoded entries into the
// ring buffer; getLog, getNextHeader, printAtIndex and dumpRange read them
// back and write the rendered lines to the output stream. Every method is
// proved against the functions of LogSpec over the arena's bytes.
module AsyncLog {
  import opened Wrappers
  import opened Bytes
  import opened Ring
  import opened StringFormat
  import opened Entry
  import opened LogSpec

  class Log {
    const ring: RingBuffer
    /** How the reader renders: format strings by address, values and timestamps. */
    const printer: Printer
    /** globalId_: the next id allocateId hands out. */
    var globalId: u32
    /** bufLastWrittenIndex_: the cursor after the last entry written. */
    var lastWritten: u32
    /** The reader's counters. */
    var stats: Stats
    /** Everything written to the output stream, line by line. */
    var output: seq<Line>
    /** How many times the output stream was flushed. */
    var flushes: nat

    ghost predicate Valid()
      reads this, ring
    {
      ring.Valid() && SizeOk(ring.size as nat)
    }

    /** Log(): a fresh arena of size bytes, every counter at zero. */
    constructor (size: u32, printer: Printer)
      requires SizeOk(size as nat)
      ensures Valid() && fresh(ring) && fresh(ring.buffer) && ring.size == size && this.printer == printer
      ensures ring.Arena() == seq(size as nat, _ => 0) && ring.currentIndex == 0 && !ring.HasWrappedAround()
      ensures globalId == 0 && lastWritten == 0 && stats == NoStats && output == [] && flushes == 0
    {
      ring := new RingBuffer(size, true);
      this.printer := printer;
      globalId := 0;
      lastWritten := 0;
      stats := NoStats;
      output := [];
      flushes := 0;
    }

    /** allocateId(): hands out the current id and advances past the two marker patterns. */
    method AllocateId() returns (id: u32)
      modifies this`globalId
      ensures id == old(globalId) && globalId == NextId(old(globalId))
    {
      id := globalId;
      globalId := Wrap32(globalId as int + 1);
      if globalId == START_PATTERN || globalId == END_PATTERN {
        globalId := Wrap32(globalId as int + 1);
      }
    }

    /**
     * traceVargs(): encodes the arguments the format (given by its address)
     * names, allocates an id, frames the payload with header and trailer,
     * allocates room at the cursor and copies the entry in. It fails with
     * nothing written when the encoder refuses the format, and, after the id
     * is taken, when the entry is longer than 4096 bytes.
     */
    method TraceVargs(withTs: bool, now: Timespec, functionName: u64, line: u32, tag: u8, format: u64, args: seq<Arg>)
      returns (ok: bool)
      requires Valid()
      modifies this`globalId, this`lastWritten, ring`currentIndex, ring`wrapCount, ring.buffer
      ensures Valid()
      ensures var enc := EncodeFrom(printer.formatAt(format), 0, false, args);
        globalId == if enc.Ok? then NextId(old(globalId)) else old(globalId)
      ensures ok <==> (var enc := EncodeFrom(printer.formatAt(format), 0, false, args);
                       enc.Ok? && HEADER_SIZE + |enc.value| + TRAILER_SIZE <= MAX_TRACE_LINE)
      ensures !ok ==>
        ring.Arena() == old(ring.Arena()) && ring.currentIndex == old(ring.currentIndex) && lastWritten == old(lastWritten)
      ensures ok ==>
        var payload := EncodeFrom(printer.formatAt(format), 0, false, args).value;
        && ring.Arena() == TracedArena(old(ring.Arena()), ring.size, old(ring.currentIndex), old(globalId), format,
                                       functionName, line, tag, if withTs then Some(now) else None, payload)
        && ring.currentIndex == TracedCursor(old(ring.currentIndex), ring.size, |payload|)
        && lastWritten == ring.currentIndex
      ensures ring.wrapCount == old(ring.wrapCount) + (if ok && IsIndexRollingOver(old(ring.currentIndex)) then 1 else 0)
    {
      var enc := EncodeToArgsBuffer(printer.formatAt(format), args);
      ok := TraceEncoded(if withTs then Some(now) else None, functionName, line, tag, format, enc);
    }

    /**
     * traceVargs() after the encoder ran: fail on a refused format; take an
     * id; fail when the entry would exceed 4096 bytes; write it otherwise.
     */
    method TraceEncoded(stamp: Option<Timespec>, functionName: u64, line: u32, tag: u8, format: u64,
                        enc: Result<seq<u8>, EncodeError>) returns (ok: bool)
      requires Valid()
      modifies this`globalId, this`lastWritten, ring`currentIndex, ring`wrapCount, ring.buffer
      ensures Valid()
      ensures globalId == if enc.Ok? then NextId(old(globalId)) else old(globalId)
      ensures ok <==> enc.Ok? && HEADER_SIZE + |enc.value| + TRAILER_SIZE <= MAX_TRACE_LINE
      ensures !ok ==>
        ring.Arena() == old(ring.Arena()) && ring.currentIndex == old(ring.currentIndex) && lastWritten == old(lastWritten)
      ensures ok ==>
        && ring.Arena() == TracedArena(old(ring.Arena()), ring.size, old(ring.currentIndex), old(globalId), format,
                                       functionName, line, tag, stamp, enc.value)
        && ring.currentIndex == TracedCursor(old(ring.currentIndex), ring.size, |enc.value|)
        && lastWritten == ring.currentIndex
      ensures ring.wrapCount == old(ring.wrapCount) + (if ok && IsIndexRollingOver(old(ring.currentIndex)) then 1 else 0)
    {
      if enc.Err? {
        return false;
      }
      var payload := enc.value;
      var id := AllocateId();
      if HEADER_SIZE + |payload| + TRAILER_SIZE > MAX_TRACE_LINE {
        return false;
      }
      assert id == old(globalId);
      WriteEntry(id, format, functionName, line, tag, stamp, payload);
      ok := true;
    }

    /**
     * traceVargs()'s second half: allocate room for the entry at the
     * cursor, frame the payload with its header and trailer, and copy the
     * entry in. LogSpec.TracedArenaValid shows the entry then passes
     * getLog's checks where it lies and reads back the header it was given.
     */
    method WriteEntry(id: u32, format: u64, functionName: u64, line: u32, tag: u8, stamp: Option<Timespec>, payload: seq<u8>)
      requires Valid() && HEADER_SIZE + |payload| + TRAILER_SIZE <= MAX_TRACE_LINE
      modifies this`lastWritten, ring`currentIndex, ring`wrapCount, ring.buffer
      ensures Valid()
      ensures ring.Arena() == TracedArena(old(ring.Arena()), ring.size, old(ring.currentIndex), id, format,
                                          functionName, line, tag, stamp, payload)
      ensures ring.currentIndex == TracedCursor(old(ring.currentIndex), ring.size, |payload|)
      ensures lastWritten == ring.currentIndex
      ensures ring.wrapCount == old(ring.wrapCount) + (if IsIndexRollingOver(old(ring.currentIndex)) then 1 else 0)
    {
      var len := HEADER_SIZE + |payload| + TRAILER_SIZE;
      var location := ring.Allocate(len as u32);
      var entry := TracedEntry(location, ring.size, id, format, functionName, line, tag, stamp, payload);
      ring.Set(location, entry, len as u32);
      lastWritten := ring.GetCurrentIndex();
    }

    /**
     * getLog(): reads the header at index, checks the start pattern and the
     * length, reads the whole entry, checks that it repeats the header and
     * ends with the trailer, and counts the check that failed.
     */
    method GetLog(index: u32) returns (ok: bool, entry: seq<u8>)
      requires Valid()
      modifies this`stats
      ensures var a := ring.Arena(); var v := Check(a, Offset(a, index));
        ok == (v == Verdict.Valid) && stats == Tally(old(stats), v)
      ensures ok ==> entry == Window(ring.Arena(), Offset(ring.Arena(), index), LengthAt(ring.Arena(), Offset(ring.Arena(), index)))
    {
      var first := ring.Get(index, HEADER_SIZE as u32);
      // The pattern field is START_PATTERN exactly when its bytes are START_BYTES (Entry.PatternOfRead).
      if first[..4] != START_BYTES {
        stats := stats.(hdrPatErr := stats.hdrPatErr + 1);
        return false, [];
      }
      var length := LengthOf(first);
      if length < HEADER_SIZE + TRAILER_SIZE || length > MAX_TRACE_LINE {
        stats := stats.(fullBufLenErr := stats.fullBufLenErr + 1);
        return false, [];
      }
      entry := ring.Get(index, length as u32);
      if entry[..HEADER_SIZE] != first {
        stats := stats.(hdrLenErr := stats.hdrLenErr + 1);
        return false, [];
      }
      TrailerOfRead(first);
      if entry[length - TRAILER_SIZE..] != TrailerBytes(IdOf(first)) {
        stats := stats.(hdrTailErr := stats.hdrTailErr + 1);
        return false, [];
      }
      ok := true;
    }

    /**
     * getNextHeader(): from index, step one byte at a time (in 32-bit
     * arithmetic) past every index that does not start with the start
     * pattern or whose entry getLog refuses; return the first index getLog
     * accepts, or 0 once more than size steps were taken. The two nested
     * loops of the source are one loop here: an index failing the pattern
     * comparison and one failing getLog take the same step.
     */
    method GetNextHeader(index: u32) returns (r: u32)
      requires Valid()
      modifies this`stats
      ensures var sc := ScanFrom(CheckOf(ring.Arena()), ring.size as nat, index, 0, old(stats));
        r == ScanIndex(sc.0) && stats == sc.1
    {
      ghost var a := ring.Arena();
      ghost var check := CheckOf(a);
      var size := ring.size;
      ghost var whole := ScanFrom(check, size as nat, index, 0, stats);
      var pattern := LE(START_PATTERN, 4);
      assert pattern[..4] == pattern;
      var i := index;
      var loop: u32 := 0;
      while true
        invariant loop <= size
        invariant ScanFrom(check, size as nat, i, loop as nat, stats) == whole
        decreases size - loop
      {
        ghost var v := Check(a, Offset(a, i));
        assert check(i) == v;
        PatternCheck(a, Offset(a, i));
        ScanStep(check, size as nat, i, loop as nat, stats, v);
        var c := ring.Compare(i, pattern, 4);
        var valid := false;
        if c == 0 {
          var entry;
          valid, entry := GetLog(i);
        }
        if valid {
          stats := stats.(glide := loop);
          return i;
        }
        i := Wrap32(i as int + 1);
        loop := loop + 1;
        if loop > size {
          stats := stats.(nextHeaderFail := stats.nextHeaderFail + 1);
          return 0;
        }
      }
    }

    /**
     * printAtIndex()'s first half: getLog at index, up to SPINS times when
     * retrying and once otherwise, counting every failed attempt.
     */
    method GetLogRetrying(index: u32, retry: bool) returns (success: bool, entry: seq<u8>)
      requires Valid()
      modifies this`stats
      ensures var a := ring.Arena(); var v := Check(a, Offset(a, index));
        && success == (v == Verdict.Valid)
        && stats == (if success then old(stats) else TallyN(old(stats), v, Attempts(retry)))
        && (success ==> entry == Window(a, Offset(a, index), LengthAt(a, Offset(a, index))))
    {
      ghost var a := ring.Arena();
      ghost var v := Check(a, Offset(a, index));
      var count := 0;
      while true
        invariant count < SPINS && stats == TallyN(old(stats), v, count)
        invariant count > 0 ==> retry && v != Verdict.Valid
        decreases SPINS - count
      {
        TallyNSnoc(old(stats), v, count);
        success, entry := GetLog(index);
        if success || !retry {
          break;
        }
        count := count + 1;
        if count >= SPINS {
          break;
        }
      }
    }

    /**
     * printAtIndex(): getLog at index (retrying when asked), then decode the
     * entry's values with the format its header names.
     */
    method PrintAtIndex(index: u32, retry: bool) returns (ok: bool, text: string, next: u32)
      requires Valid()
      modifies this`stats
      ensures Printed(ok, text, next, stats) == PrintAt(ring.Arena(), printer, index, retry, old(stats))
    {
      ghost var a := ring.Arena();
      var success, entry := GetLogRetrying(index, retry);
      if !success {
        PrintAtInvalid(a, printer, index, retry, old(stats));
        stats := stats.(printFall := stats.printFall + 1);
        return false, "", index;
      }
      PrintAtValid(a, printer, index, retry, old(stats), entry);
      ok, text, next := PrintEntryAt(index, entry);
    }

    /**
     * printAtIndex()'s second half, on the entry getLog returned: decode its
     * values with the format its header names and count the corruption.
     */
    method PrintEntryAt(index: u32, entry: seq<u8>) returns (ok: bool, text: string, next: u32)
      requires Valid() && HEADER_SIZE + TRAILER_SIZE <= |entry| <= MAX_TRACE_LINE
      modifies this`stats
      ensures Printed(ok, text, next, stats) == PrintEntry(printer, index, ring.size, entry, old(stats))
    {
      var first := entry[..HEADER_SIZE];
      var res := DecodeArgs(printer.formatAt(FormatOf(first)), entry, HEADER_SIZE, |entry| - TRAILER_SIZE,
                            StopPast(index, ring.size), printer.render);
      assert PrintEntry(printer, index, ring.size, entry, stats) == Outcome(printer, index, first, res, stats);
      match res
      case Err(e) =>
        stats := stats.(stringCorrupted := stats.stringCorrupted + e.truncations
                                           + if e.kind == StringBoundNegative then 1 else 0);
        return false, "", index;
      case Ok(out) =>
        stats := stats.(stringCorrupted := stats.stringCorrupted + out.truncations, lastPrintedId := IdOf(first));
        return true, printer.stamp(first) + out.text, Wrap32(out.index + index + TRAILER_SIZE);
    }

    /**
     * One pass of dumpRange()'s loop at i: printAtIndex; on a failure the
     * notice and getNextHeader, otherwise the entry, written and counted
     * when the next index stays within last.
     */
    method DumpPassAt(i: u32, last: u32, cont: bool) returns (t: Turn, ghost lines: seq<Line>)
      requires Valid() && i < last <= ring.size
      modifies this`stats, this`output
      ensures (t, lines) == PassAt(ring.Arena(), printer, i, last as nat, cont, old(stats))
      ensures output == old(output) + lines && stats == t.stats
    {
      var ok, text, ni := PrintAtIndex(i, !cont);
      if !ok {
        t, lines := RealignAt(i, last, cont);
      } else {
        t, lines := EmitAt(i, last, text, ni);
      }
    }

    /** The success half of a pass of dumpRange()'s loop: write and count the entry printed when next stays within last. */
    method EmitAt(i: u32, last: u32, text: string, next: u32) returns (t: Turn, ghost lines: seq<Line>)
      modifies this`stats, this`output
      ensures (t, lines) == PassOf(Printed(true, text, next, old(stats)), (NotFound, old(stats)), i, last as nat, true)
      ensures output == old(output) + lines && stats == t.stats
    {
      if next > last {
        t := Done(i, stats);
        lines := [];
        assert output + [] == output;
      } else {
        stats := stats.(collected := stats.collected + 1);
        output := output + [Entry(text)];
        lines := [Entry(text)];
        t := Again(next, stats);
      }
    }

    /** The failure half of a pass of dumpRange()'s loop: getNextHeader from i and the notice. */
    method RealignAt(i: u32, last: u32, cont: bool) returns (t: Turn, ghost lines: seq<Line>)
      requires Valid() && last <= ring.size
      modifies this`stats, this`output
      ensures var a := ring.Arena();
        (t, lines) == Realign(ScanFrom(CheckOf(a), |a|, i, 0, old(stats)), i, last as nat, cont)
      ensures output == old(output) + lines && stats == t.stats
    {
      var ni := GetNextHeader(i);
      output := output + [Discarded(ni)];
      lines := [Discarded(ni)];
      if !cont || ni <= i {
        t := Done(ni, stats);
      } else if ni > last {
        t := Done(i, stats);
      } else {
        t := Again(ni, stats);
      }
    }

    /**
     * dumpRange(): print the entries from start to end (both normalised,
     * end inclusive) to the output stream, resynchronising with
     * getNextHeader on a failure. Returns where the next dump should start.
     */
    method DumpRange(start: u32, end: u32, cont: bool) returns (r: u32)
      requires Valid()
      modifies this`stats, this`output
      ensures var d := LogSpec.DumpRange(ring.Arena(), printer, start, end, cont, old(stats));
        r == d.result && stats == d.stats && output == old(output) + d.lines
    {
      var b := Bounds(start, end, ring.size);
      PrintOfAdvances(ring.Arena(), printer, b.1 as nat);
      ModelsOf(ring.Arena(), printer);
      r := DumpLoop(PrintOf(ring.Arena(), printer), ScanOf(ring.Arena()), b.0, b.1, cont);
    }

    /** dumpRange()'s loop from i0 up to last, with show and resync standing for printAtIndex and getNextHeader. */
    method DumpLoop(ghost show: PrintFn, ghost resync: ResyncFn, i0: u32, last: u32, cont: bool) returns (r: u32)
      requires Valid() && last <= ring.size && Advances(show, last as nat) && Models(show, resync, ring.Arena(), printer)
      modifies this`stats, this`output
      ensures var d := DumpFrom(show, resync, i0, last as nat, cont, old(stats));
        r == d.result && stats == d.stats && output == old(output) + d.lines
    {
      ghost var a := ring.Arena();
      ghost var end := last as nat;
      var i: u32 := i0;
      ghost var written: seq<Line> := [];
      while i < last
        invariant Valid() && ring.Arena() == a
        invariant output == old(output) + written
        invariant DumpFrom(show, resync, i0, end, cont, old(stats)) == After(written, DumpFrom(show, resync, i, end, cont, stats))
        decreases last as int - i as int
      {
        ghost var s := stats;
        var t, lines := DumpPassAt(i, last, cont);
        assert (t, lines) == DumpPass(show, resync, i, end, cont, s);
        DumpLoopStep(show, resync, i, end, cont, s, written, t, lines);
        Associative(old(output), written, lines);
        written := written + lines;
        match t
        case Done(res, _) =>
          return res;
        case Again(j, _) =>
          i := j;
      }
      r := i;
    }

    /**
     * firstLine(): the index of the oldest entry: 0 until the cursor has
     * passed the arena size or wrapped around, the first valid entry at or
     * after the cursor's offset afterwards.
     */
    method FirstLine() returns (r: u32)
      requires Valid()
      modifies this`stats
      ensures (r, stats) == LogSpec.FirstLine(ring.Arena(), ring.currentIndex, ring.HasWrappedAround(), old(stats))
    {
      var current := ring.GetCurrentIndex();
      if current >= ring.size || ring.HasWrappedAround() {
        r := GetNextHeader(Normalize(current, ring.size));
      } else {
        r := 0;
      }
    }

    /**
     * dump(): dumpRange from the slot of firstLine() to the slot before
     * the cursor's, stopping at the first failure, then a flush.
     */
    method Dump()
      requires Valid()
      modifies this`stats, this`output, this`flushes
      ensures var d := LogSpec.Dump(ring.Arena(), printer, ring.currentIndex, ring.HasWrappedAround(), old(stats));
        stats == d.stats && output == old(output) + d.lines && flushes == old(flushes) + 1
    {
      var first := FirstLine();
      var i := Normalize(first, ring.size);
      var cursor := ring.GetCurrentIndex();
      var end := Normalize(cursor, ring.size);
      var next := DumpRange(i, Wrap32(end as int - 1), false);
      FlushStream();
    }

    /** The output stream's flush(). */
    method FlushStream()
      modifies this`flushes
      ensures flushes == old(flushes) + 1
    {
      flushes := flushes + 1;
    }
  }
}
