/**
 * The argument codec of the logger. On the hot path the encoder walks a
 * printf format string and packs only the binary values of the variadic
 * arguments into a buffer; the decoder later walks the same format string,
 * reads the values back in the same order and renders the text.
 */
module StringFormat {
  import opened Wrappers
  import opened Bytes

  const NUL: char := 0 as char

  /** "(null)", what memSetString stores for a NULL char pointer. */
  const NULL_TEXT: seq<u8> := [0x28, 0x6e, 0x75, 0x6c, 0x6c, 0x29]

  /**
   * A variadic argument after C's default promotions: char and short
   * travel as int, float as double. Double holds the IEEE-754 bit pattern.
   */
  datatype Arg = Int(iv: u32) | Long(lv: u64) | Double(bits: u64) | Ptr(addr: u64) | Str(bytes: seq<u8>) | NullStr

  /** A value as it sits in the args buffer, and as the decoder reads it back. */
  datatype Value = Byte(b: u8) | Word(w: u16) | Int32(i: u32) | Long64(l: u64) | Dbl(bits: u64) | Pointer(addr: u64) | Text(bytes: seq<u8>)

  /** The storage class a conversion specification selects. */
  datatype Kind = KChar | KShort | KInt | KLong | KDouble | KPtr | KStr

  /** sizeof of the stored value for the fixed-width kinds (LP64). */
  function Width(k: Kind): nat
    requires k != KStr
  {
    match k
    case KChar => 1
    case KShort => 2
    case KInt => 4
    case KLong => 8
    case KDouble => 8
    case KPtr => 8
  }

  function KindOf(v: Value): Kind {
    match v
    case Byte(_) => KChar
    case Word(_) => KShort
    case Int32(_) => KInt
    case Long64(_) => KLong
    case Dbl(_) => KDouble
    case Pointer(_) => KPtr
    case Text(_) => KStr
  }

  /** The C string a char pointer designates: the bytes before the first zero. */
  function CStr(s: seq<u8>): (r: seq<u8>)
    ensures |r| <= |s| && r == s[..|r|]
    ensures 0 !in r
    ensures |r| < |s| ==> s[|r|] == 0
  {
    if s == [] || s[0] == 0 then [] else [s[0]] + CStr(s[1..])
  }

  /**
   * What the encoder stores for argument a under a conversion of kind k:
   * va_arg of the promoted type, then a cast to the stored width. None
   * when the argument does not have the type the conversion reads.
   */
  function Stored(k: Kind, a: Arg): Option<Value> {
    match (k, a)
    case (KChar, Int(v)) => Some(Byte(v % 0x100))
    case (KShort, Int(v)) => Some(Word(v % 0x1_0000))
    case (KInt, Int(v)) => Some(Int32(v))
    case (KLong, Long(v)) => Some(Long64(v))
    case (KDouble, Double(b)) => Some(Dbl(b))
    case (KPtr, Ptr(p)) => Some(Pointer(p))
    case (KStr, Str(s)) => Some(Text(CStr(s)))
    case (KStr, NullStr) => Some(Text(NULL_TEXT))
    case _ => None
  }

  /**
   * memSetByte/Word/Int/Long64/Double/Ptr/String: the bytes one stored value
   * occupies in the args buffer; a string is followed by its terminating zero.
   */
  function MemSet(v: Value): (r: seq<u8>)
    ensures v.Text? ==> r == v.bytes + [0]
    ensures !v.Text? ==> |r| == Width(KindOf(v))
  {
    match v
    case Byte(b) => LE(b, 1)
    case Word(w) => LE(w, 2)
    case Int32(i) => LE(i, 4)
    case Long64(l) => LE(l, 8)
    case Dbl(b) => LE(b, 8)
    case Pointer(p) => LE(p, 8)
    case Text(s) => s + [0]
  }

  /** memGetByte/Word/Int/Long64/Double/Ptr: a fixed-width load; None past the buffer's end. */
  function MemGet(buf: seq<u8>, idx: nat, k: Kind): (r: Option<Value>)
    requires k != KStr
    ensures r.Some? <==> idx + Width(k) <= |buf|
    ensures r.Some? ==> KindOf(r.value) == k && MemSet(r.value) == buf[idx..idx + Width(k)]
  {
    if idx + Width(k) > |buf| then None
    else
      var bytes := buf[idx..idx + Width(k)];
      var x := FromLE(bytes);
      LEOfFromLE(bytes);
      assert Pow256(1) == 0x100 && Pow256(2) == 0x1_0000 && Pow256(4) == 0x1_0000_0000;
      assert Pow256(8) == 0x1_0000_0000_0000_0000;
      match k
      case KChar => Some(Byte(x))
      case KShort => Some(Word(x))
      case KInt => Some(Int32(x))
      case KLong => Some(Long64(x))
      case KDouble => Some(Dbl(x))
      case KPtr => Some(Pointer(x))
  }

  /** A fixed-width value stored at idx is loaded back unchanged. */
  lemma {:induction false} MemGetOfMemSet(v: Value, buf: seq<u8>, idx: nat)
    requires !v.Text? && idx + |MemSet(v)| <= |buf| && buf[idx..idx + |MemSet(v)|] == MemSet(v)
    ensures MemGet(buf, idx, KindOf(v)) == Some(v)
  {
    var r := MemGet(buf, idx, KindOf(v));
    assert Pow256(1) == 0x100 && Pow256(2) == 0x1_0000 && Pow256(4) == 0x1_0000_0000;
    assert Pow256(8) == 0x1_0000_0000_0000_0000;
    match v
    case Byte(b) => FromLEOfLE(b, 1); LEInjective(r.value.b, b, 1);
    case Word(w) => LEInjective(r.value.w, w, 2);
    case Int32(i) => LEInjective(r.value.i, i, 4);
    case Long64(l) => LEInjective(r.value.l, l, 8);
    case Dbl(b) => LEInjective(r.value.bits, b, 8);
    case Pointer(p) => LEInjective(r.value.addr, p, 8);
  }

  // ---------------------------------------------------------------------
  // Encoder
  // ---------------------------------------------------------------------

  /** format[j], reading the terminating NUL beyond the end of the text. */
  function At(f: string, j: nat): char {
    if j < |f| then f[j] else NUL
  }

  predicate IsDigit(c: char) {
    '0' <= c <= '9'
  }

  /** Characters the encoder steps over while still inside a specification. */
  predicate IsEncoderFlag(c: char) {
    c == '-' || c == '+' || c == ' ' || c == '#' || c == '.' || IsDigit(c)
  }

  /** Conversion letters after "h", after "hh", and the integer letters (alone, after "l" or "ll"). */
  predicate IsShortLetter(c: char) {
    c == 'd' || c == 'u' || c == 'x' || c == 'X' || c == 'o' || c == 'i'
  }

  predicate IsShortShortLetter(c: char) {
    c == 'x' || c == 'X' || c == 'u' || c == 'o'
  }

  predicate IsIntLetter(c: char) {
    c == 'd' || c == 'u' || c == 'i' || c == 'x' || c == 'X'
  }

  /** What the encoder does at format[i] while inside a specification. */
  datatype EncAction =
    | Consume(kind: Kind, next: nat)  // store one argument, resume outside at next
    | Skip(next: nat)                 // store nothing, resume outside at next
    | KeepInside                      // a flag, width or precision character
    | Unknown                         // assert(0) in the source

  function EncStep(f: string, i: nat): (a: EncAction)
    requires i < |f|
    ensures a.Consume? ==> i <= a.next <= |f|
    ensures a.Skip? ==> a.next == i + 1
  {
    var c := f[i];
    if c == 'h' then
      var c1 := At(f, i + 1);
      if IsShortLetter(c1) then Consume(KShort, i + 1)
      else if c1 == 'h' && IsShortShortLetter(At(f, i + 2)) then Consume(KShort, i)
      else Skip(i + 1)
    else if c == '%' then Skip(i + 1)
    else if c == 'c' then Consume(KChar, i + 1)
    else if IsIntLetter(c) then Consume(KInt, i + 1)
    else if c == 'f' then Consume(KDouble, i + 1)
    else if c == 'p' then Consume(KPtr, i + 1)
    else if c == 's' then Consume(KStr, i + 1)
    else if c == 'l' then
      var c1 := At(f, i + 1);
      if c1 == 'l' && IsIntLetter(At(f, i + 2)) then Consume(KLong, i + 2)
      else if IsIntLetter(c1) then Consume(KInt, i + 1)
      else if c1 == 'f' then Consume(KDouble, i + 1)
      else Skip(i + 1)
    else if IsEncoderFlag(c) then KeepInside
    else Unknown
  }

  /** Why the encoder stops: the source asserts, or reads a missing or mistyped va_arg. */
  datatype EncodeError = UnknownConversion(at: nat) | MissingArgument(at: nat) | ArgumentMismatch(at: nat)

  /** The args-buffer bytes produced from format position i onward with the arguments args. */
  function EncodeFrom(f: string, i: nat, inside: bool, args: seq<Arg>): Result<seq<u8>, EncodeError>
    requires i <= |f|
    decreases |f| - i, if inside then 1 else 0
  {
    if At(f, i) == NUL then Ok([])
    else if f[i] == '%' then EncodeFrom(f, i + 1, !inside, args)
    else if !inside then EncodeFrom(f, i + 1, false, args)
    else match EncStep(f, i)
      case Consume(k, next) =>
        if args == [] then Err(MissingArgument(i))
        else if Stored(k, args[0]).None? then Err(ArgumentMismatch(i))
        else Prepend(MemSet(Stored(k, args[0]).value), EncodeFrom(f, next, false, args[1..]))
      case Skip(next) => EncodeFrom(f, next, false, args)
      case KeepInside => EncodeFrom(f, i + 1, true, args)
      case Unknown => Err(UnknownConversion(i))
  }

  function Prepend(out: seq<u8>, r: Result<seq<u8>, EncodeError>): Result<seq<u8>, EncodeError> {
    match r
    case Ok(b) => Ok(out + b)
    case Err(e) => Err(e)
  }

  lemma PrependPrepend(a: seq<u8>, b: seq<u8>, r: Result<seq<u8>, EncodeError>)
    ensures Prepend(a, Prepend(b, r)) == Prepend(a + b, r)
  {
    if r.Ok? {
      assert a + (b + r.value) == (a + b) + r.value;
    }
  }

  lemma PrependNothing(r: Result<seq<u8>, EncodeError>)
    ensures Prepend([], r) == r
  {
    if r.Ok? {
      assert [] + r.value == r.value;
    }
  }

  /**
   * encodeToArgsBuffer(): one pass over the format, appending the stored
   * value of each argument a conversion consumes.
   */
  method EncodeToArgsBuffer(f: string, args: seq<Arg>) returns (r: Result<seq<u8>, EncodeError>)
    ensures r == EncodeFrom(f, 0, false, args)
  {
    var i := 0;
    var inside := false;
    var out: seq<u8> := [];
    var rest := args;
    PrependNothing(EncodeFrom(f, 0, false, args));
    while At(f, i) != NUL
      invariant i <= |f|
      invariant EncodeFrom(f, 0, false, args) == Prepend(out, EncodeFrom(f, i, inside, rest))
      decreases |f| - i, if inside then 1 else 0
    {
      if f[i] == '%' {
        inside := !inside;
        i := i + 1;
      } else if !inside {
        i := i + 1;
      } else {
        inside := false;
        match EncStep(f, i)
        case Consume(k, next) =>
          if rest == [] {
            return Err(MissingArgument(i));
          }
          var v := Stored(k, rest[0]);
          if v.None? {
            return Err(ArgumentMismatch(i));
          }
          PrependPrepend(out, MemSet(v.value), EncodeFrom(f, next, false, rest[1..]));
          out := out + MemSet(v.value);
          rest := rest[1..];
          i := next;
        case Skip(next) =>
          i := next;
        case KeepInside =>
          inside := true;
          i := i + 1;
        case Unknown =>
          return Err(UnknownConversion(i));
      }
    }
    assert out + [] == out;
    r := Ok(out);
  }

  // ---------------------------------------------------------------------
  // Strings in the args buffer
  // ---------------------------------------------------------------------

  /** The number of non-zero bytes from buf[j] up to the first zero or the end. */
  function NonZeroRun(buf: seq<u8>, j: nat): (z: nat)
    requires j <= |buf|
    ensures j + z <= |buf|
    ensures forall k :: j <= k < j + z ==> buf[k] != 0
    ensures j + z < |buf| ==> buf[j + z] == 0
    decreases |buf| - j
  {
    if j == |buf| || buf[j] == 0 then 0 else 1 + NonZeroRun(buf, j + 1)
  }

  /**
   * memGetString() without a bound: the length of the string at idx. None
   * when no zero byte follows before the end of the buffer (the source
   * would read past it).
   */
  method MemGetString(buf: seq<u8>, idx: nat) returns (r: Option<nat>, dst: seq<u8>)
    requires idx <= |buf|
    ensures r.Some? <==> idx + NonZeroRun(buf, idx) < |buf|
    ensures r.Some? ==> r.value == NonZeroRun(buf, idx) && dst == buf[idx..idx + r.value]
    ensures r.Some? ==> idx + r.value < |buf| && buf[idx + r.value] == 0 && 0 !in dst
  {
    var di := 0;
    while idx + di < |buf| && buf[idx + di] != 0
      invariant idx + di <= |buf|
      invariant forall k :: idx <= k < idx + di ==> buf[k] != 0
      invariant NonZeroRun(buf, idx) == di + NonZeroRun(buf, idx + di)
      decreases |buf| - di
    {
      di := di + 1;
    }
    if idx + di == |buf| {
      return None, [];
    }
    r, dst := Some(di), buf[idx..idx + di];
  }

  /** The bounded read: (length, truncated), or None when it runs past the buffer. */
  function BoundedString(buf: seq<u8>, idx: nat, max: nat): Option<(nat, bool)>
    requires idx <= |buf|
  {
    var z := NonZeroRun(buf, idx);
    if z > max then Some((max, true))
    else if idx + z < |buf| then Some((z, false))
    else None
  }

  /**
   * memGetString() with a bound: copies the string at idx, but after max
   * non-zero bytes gives up and reports it truncated (the source counts
   * that in getStringCorruptedCount).
   */
  method MemGetStringBounded(buf: seq<u8>, idx: nat, max: nat) returns (r: Option<(nat, bool)>, dst: seq<u8>)
    requires idx <= |buf|
    ensures r == BoundedString(buf, idx, max)
    ensures r.Some? ==> r.value.0 <= max && idx + r.value.0 < |buf| && dst == buf[idx..idx + r.value.0] && 0 !in dst
    ensures r.Some? && !r.value.1 ==> buf[idx + r.value.0] == 0
    ensures r.Some? && r.value.1 ==> r.value.0 == max && buf[idx + max] != 0
    ensures r.None? ==> forall k :: idx <= k < |buf| ==> buf[k] != 0
  {
    var di := 0;
    while idx + di < |buf| && buf[idx + di] != 0
      invariant idx + di <= |buf| && di <= max
      invariant forall k :: idx <= k < idx + di ==> buf[k] != 0
      invariant NonZeroRun(buf, idx) == di + NonZeroRun(buf, idx + di)
      decreases |buf| - di
    {
      if di + 1 > max {
        return Some((di, true)), buf[idx..idx + di];
      }
      di := di + 1;
    }
    if idx + di == |buf| {
      return None, [];
    }
    r, dst := Some((di, false)), buf[idx..idx + di];
  }

  /**
   * strlcpy(): copies at most siz - 1 characters of the C string src into
   * dst and always terminates dst when siz > 0; nothing else in dst changes.
   */
  method Strlcpy(dst: array<char>, src: string, siz: nat)
    requires NUL in src && siz <= dst.Length
    modifies dst
    ensures var m := Min(CLength(src), siz - 1);
      siz > 0 ==> dst[..m] == src[..m] && dst[m] == NUL && dst[m + 1..] == old(dst[m + 1..])
    ensures siz == 0 ==> dst[..] == old(dst[..])
  {
    var d := 0;
    var n: nat := siz;
    if n != 0 {
      n := n - 1;
      while n != 0
        invariant d + n == siz - 1 && d <= CLength(src)
        invariant NUL !in src[..d]
        invariant dst[..d] == src[..d]
        invariant dst[d..] == old(dst[d..])
      {
        var c := src[d];
        dst[d] := c;
        d := d + 1;
        if c == NUL {
          CLengthAt(src, d - 1);
          return;
        }
        n := n - 1;
      }
    }
    if n == 0 && siz != 0 {
      dst[d] := NUL;
    }
  }

  /** strlen(): the position of the first NUL. */
  function CLength(s: string): (n: nat)
    requires NUL in s
    ensures n < |s| && s[n] == NUL && NUL !in s[..n]
  {
    if s[0] == NUL then 0 else 1 + CLength(s[1..])
  }

  /** The first NUL is at position j when src[j] is NUL and none comes before. */
  lemma CLengthAt(s: string, j: nat)
    requires j < |s| && s[j] == NUL && NUL !in s[..j]
    ensures CLength(s) == j
  {
    var n := CLength(s);
    assert forall k | 0 <= k < j :: s[k] == s[..j][k];
    assert forall k | 0 <= k < n :: s[k] == s[..n][k];
  }

  function Min(a: int, b: int): int {
    if a < b then a else b
  }

  // ---------------------------------------------------------------------
  // Decoder
  // ---------------------------------------------------------------------

  /** Flag characters the decoder accepts, at most one, right after '%'. */
  predicate IsDecoderFlag(c: char) {
    c == '0' || c == ' ' || c == '#' || c == '-' || c == '+'
  }

  /** The end of the run of digits starting at j. */
  function SkipDigits(f: string, j: nat): (e: nat)
    ensures j <= e && (e > j ==> e <= |f|)
    ensures !IsDigit(At(f, e))
    ensures forall q :: j <= q < e ==> q < |f| && IsDigit(f[q])
    decreases |f| - j
  {
    if j < |f| && IsDigit(f[j]) then SkipDigits(f, j + 1) else j
  }

  /** How a specification starting with '%' ends. */
  datatype DecConv =
    | Conv(kind: Kind, end: nat)   // a conversion reading one value
    | PercentSign(end: nat)         // "%%" (with optional flags): prints '%'
    | NotConv                       // not recognised: the '%' is copied

  /** The conversion letters at position j (after flags, width and precision). */
  function DecConvAt(f: string, j: nat): (r: DecConv)
    ensures r.Conv? ==> j < r.end <= j + 3 && r.end <= |f|
    ensures r.PercentSign? ==> r.end == j + 1 <= |f|
  {
    var c := At(f, j);
    if c == 'h' then
      var c1 := At(f, j + 1);
      if IsShortLetter(c1) then Conv(KShort, j + 2)
      else if c1 == 'h' && IsShortShortLetter(At(f, j + 2)) then Conv(KShort, j + 3)
      else NotConv
    else if c == 'c' then Conv(KChar, j + 1)
    else if IsIntLetter(c) then Conv(KInt, j + 1)
    else if c == 'f' then Conv(KDouble, j + 1)
    else if c == 'p' then Conv(KPtr, j + 1)
    else if c == 's' then Conv(KStr, j + 1)
    else if c == 'l' then
      var c1 := At(f, j + 1);
      if c1 == 'l' then (if IsIntLetter(At(f, j + 2)) then Conv(KLong, j + 3) else NotConv)
      else if IsIntLetter(c1) then Conv(KInt, j + 2)
      else if c1 == 'f' then Conv(KDouble, j + 2)
      else NotConv
    else if c == '%' then PercentSign(j + 1)
    else NotConv
  }

  /** The specification starting at the '%' at position i. */
  function DecScan(f: string, i: nat): (r: DecConv)
    requires i < |f| && f[i] == '%'
    ensures r.Conv? ==> i < r.end <= |f|
    ensures r.PercentSign? ==> i < r.end <= |f|
  {
    var j1 := if IsDecoderFlag(At(f, i + 1)) then i + 2 else i + 1;
    var j2 := SkipDigits(f, j1);
    var j3 := if At(f, j2) == '.' then j2 + 1 else j2;
    DecConvAt(f, SkipDigits(f, j3))
  }

  /** The scanning loops of decodeFromArgsBuffer() for one specification. */
  method ScanSpecification(f: string, i: nat) returns (r: DecConv)
    requires i < |f| && f[i] == '%'
    ensures r == DecScan(f, i)
  {
    var j := i + 1;
    if IsDecoderFlag(At(f, j)) {
      j := j + 1;
    }
    j := SkipDigitRun(f, j);
    if At(f, j) == '.' {
      j := j + 1;
    }
    j := SkipDigitRun(f, j);
    r := DecConvAt(f, j);
  }

  /** One of the decoder's digit-skipping loops. */
  method SkipDigitRun(f: string, j0: nat) returns (j: nat)
    ensures j == SkipDigits(f, j0)
  {
    j := j0;
    while At(f, j) != NUL && IsDigit(At(f, j))
      invariant j0 <= j && (j > j0 ==> j <= |f|)
      invariant SkipDigits(f, j0) == SkipDigits(f, j)
      decreases |f| - j
    {
      j := j + 1;
    }
  }

  /**
   * C's int arithmetic for max_string: an int minus a uint32_t is computed
   * in 32-bit unsigned arithmetic and the result converted back to int.
   */
  function AsSigned32(x: u32): int {
    if x < 0x8000_0000 then x else x - 0x1_0000_0000
  }

  function MaxString(limit: int, idx: nat): int {
    AsSigned32(Wrap32(limit - idx - 1))
  }

  /** For operands within int range the C computation is the plain difference. */
  lemma MaxStringExact(limit: int, idx: nat)
    requires -0x8000_0000 <= limit - idx - 1 < 0x8000_0000
    ensures MaxString(limit, idx) == limit - idx - 1
  {
  }

  /** An extra stop condition checked after every step (printAtIndex's arena bound). */
  datatype Guard = Unguarded | StopPast(base: u32, size: u32)

  predicate Stops(g: Guard, idx: nat) {
    g.StopPast? && Wrap32(g.base + idx) > g.size
  }

  /** Why decoding gives up: max_string < 0 (return -1), or a read past the buffer. */
  datatype FailKind = StringBoundNegative | ReadPastEnd

  datatype DecodeError = DecodeError(kind: FailKind, truncations: nat)

  /** What decoding produced: the text, the index after the last value read, truncated strings, values read. */
  datatype DecodeOut = DecodeOut(text: string, index: nat, truncations: nat, values: seq<Value>)

  /** One iteration of the decoder's main loop. */
  datatype Piece = Piece(text: string, next: nat, idx: nat, truncated: bool, value: Option<Value>)

  function BytesToChars(b: seq<u8>): (s: string)
    ensures |s| == |b|
  {
    seq(|b|, k requires 0 <= k < |b| => b[k] as char)
  }

  function DecodeStep(f: string, i: nat, buf: seq<u8>, idx: nat, limit: int, render: (string, Value) -> string): (r: Result<Piece, FailKind>)
    requires i < |f| && idx <= |buf|
    ensures r.Ok? ==> i < r.value.next <= |f| && idx <= r.value.idx <= |buf|
  {
    if f[i] != '%' then Ok(Piece([f[i]], i + 1, idx, false, None))
    else match DecScan(f, i)
      case NotConv => Ok(Piece([f[i]], i + 1, idx, false, None))
      case PercentSign(e) => Ok(Piece(['%'], e, idx, false, None))
      case Conv(k, e) =>
        if k == KStr then
          var max := MaxString(limit, idx);
          if max < 0 then Err(StringBoundNegative)
          else match BoundedString(buf, idx, max)
            case None => Err(ReadPastEnd)
            case Some((len, truncated)) =>
              Ok(Piece(BytesToChars(buf[idx..idx + len]), e, idx + len + 1, truncated, Some(Text(buf[idx..idx + len]))))
        else match MemGet(buf, idx, k)
          case None => Err(ReadPastEnd)
          case Some(v) => Ok(Piece(render(f[i..e], v), e, idx + Width(k), false, Some(v)))
  }

  /** The decoder's result from format position i and buffer index idx onward. */
  function DecodeFrom(f: string, i: nat, buf: seq<u8>, idx: nat, limit: int, g: Guard, render: (string, Value) -> string): (r: Result<DecodeOut, DecodeError>)
    requires i <= |f| && idx <= |buf|
    ensures r.Ok? ==> idx <= r.value.index <= |buf|
    decreases |f| - i
  {
    if At(f, i) == NUL then Ok(DecodeOut("", idx, 0, []))
    else match DecodeStep(f, i, buf, idx, limit, render)
      case Err(k) => Err(DecodeError(k, 0))
      case Ok(p) =>
        if Stops(g, p.idx) then Ok(PieceOut(p))
        else Then(PieceOut(p), DecodeFrom(f, p.next, buf, p.idx, limit, g, render))
  }

  /**
   * printAtIndex's guard never fires on an entry that ends within the
   * arena: with base + |buf| <= size, decoding is the same with and without it.
   */
  lemma {:induction false} GuardInert(f: string, i: nat, buf: seq<u8>, idx: nat, limit: int, base: u32, size: u32,
                                      render: (string, Value) -> string)
    requires i <= |f| && idx <= |buf| && base as nat + |buf| <= size as nat
    ensures DecodeFrom(f, i, buf, idx, limit, StopPast(base, size), render) == DecodeFrom(f, i, buf, idx, limit, Unguarded, render)
    decreases |f| - i
  {
    if At(f, i) != NUL {
      var r := DecodeStep(f, i, buf, idx, limit, render);
      if r.Ok? {
        var p := r.value;
        assert !Stops(StopPast(base, size), p.idx);
        GuardInert(f, p.next, buf, p.idx, limit, base, size, render);
      }
    }
  }

  /**
   * With the guard, a decoding that succeeds without it still succeeds: it
   * either reads as far as the unguarded one, or stops at an index past
   * the arena.
   */
  lemma {:induction false} GuardCuts(f: string, i: nat, buf: seq<u8>, idx: nat, limit: int, base: u32, size: u32,
                                     render: (string, Value) -> string)
    requires i <= |f| && idx <= |buf| && DecodeFrom(f, i, buf, idx, limit, Unguarded, render).Ok?
    ensures var r := DecodeFrom(f, i, buf, idx, limit, StopPast(base, size), render);
      && r.Ok?
      && (r.value.index == DecodeFrom(f, i, buf, idx, limit, Unguarded, render).value.index
          || Stops(StopPast(base, size), r.value.index))
    decreases |f| - i
  {
    if At(f, i) != NUL {
      var p := DecodeStep(f, i, buf, idx, limit, render).value;
      if !Stops(StopPast(base, size), p.idx) {
        GuardCuts(f, p.next, buf, p.idx, limit, base, size, render);
      }
    }
  }

  /** What one step of the decoder contributes to the output. */
  function PieceOut(p: Piece): DecodeOut {
    DecodeOut(p.text, p.idx, if p.truncated then 1 else 0, if p.value.Some? then [p.value.value] else [])
  }

  /** The output so far extended by one step's contribution. */
  function Extend(acc: DecodeOut, p: Piece): DecodeOut {
    var out := PieceOut(p);
    DecodeOut(acc.text + out.text, out.index, acc.truncations + out.truncations, acc.values + out.values)
  }

  /**
   * The invariant of the decoder's main loop carried over one step: the
   * whole decoding is the output so far, extended by the step, followed by
   * the decoding from where the step ends, unless the guard stops there.
   */
  lemma DecodeAdvance(f: string, i: nat, buf: seq<u8>, idx0: nat, limit: int, g: Guard,
                      render: (string, Value) -> string, acc: DecodeOut, pc: Piece)
    requires i < |f| && At(f, i) != NUL && idx0 <= |buf| && acc.index <= |buf|
    requires DecodeFrom(f, 0, buf, idx0, limit, g, render) == Then(acc, DecodeFrom(f, i, buf, acc.index, limit, g, render))
    requires DecodeStep(f, i, buf, acc.index, limit, render) == Ok(pc)
    ensures pc.next <= |f| && acc.index <= pc.idx <= |buf|
    ensures Stops(g, pc.idx) ==> DecodeFrom(f, 0, buf, idx0, limit, g, render) == Ok(Extend(acc, pc))
    ensures !Stops(g, pc.idx) ==>
      DecodeFrom(f, 0, buf, idx0, limit, g, render) == Then(Extend(acc, pc), DecodeFrom(f, pc.next, buf, pc.idx, limit, g, render))
  {
    DecodeFromStep(f, i, buf, acc.index, limit, g, render, pc);
    if Stops(g, pc.idx) {
      ThenPieceLast(acc, pc);
    } else {
      ThenPieceNext(acc, pc, DecodeFrom(f, pc.next, buf, pc.idx, limit, g, render));
    }
  }

  /** The output so far followed by a step and the rest is the output extended by the step, followed by the rest. */
  lemma ThenPieceNext(acc: DecodeOut, pc: Piece, rest: Result<DecodeOut, DecodeError>)
    ensures Then(acc, Then(PieceOut(pc), rest)) == Then(Extend(acc, pc), rest)
  {
    ThenAssoc(acc, PieceOut(pc), rest);
  }

  /** The decoding at a position where a step succeeds: the step's output, then the rest unless the guard stops. */
  lemma DecodeFromStep(f: string, i: nat, buf: seq<u8>, idx: nat, limit: int, g: Guard,
                       render: (string, Value) -> string, pc: Piece)
    requires i < |f| && At(f, i) != NUL && idx <= |buf| && DecodeStep(f, i, buf, idx, limit, render) == Ok(pc)
    ensures pc.next <= |f| && idx <= pc.idx <= |buf|
    ensures DecodeFrom(f, i, buf, idx, limit, g, render)
         == if Stops(g, pc.idx) then Ok(PieceOut(pc)) else Then(PieceOut(pc), DecodeFrom(f, pc.next, buf, pc.idx, limit, g, render))
  {
  }

  /** The output so far followed by a last step is the output extended by that step. */
  lemma ThenPieceLast(acc: DecodeOut, pc: Piece)
    ensures Then(acc, Ok(PieceOut(pc))) == Ok(Extend(acc, pc))
  {
  }

  /** The output so far followed by the rest of the decoding. */
  function Then(out: DecodeOut, rest: Result<DecodeOut, DecodeError>): (r: Result<DecodeOut, DecodeError>)
    ensures rest.Ok? && out.index <= rest.value.index ==> r.Ok? && r.value.index == rest.value.index
  {
    match rest
    case Ok(o) => Ok(DecodeOut(out.text + o.text, o.index, out.truncations + o.truncations, out.values + o.values))
    case Err(e) => Err(DecodeError(e.kind, out.truncations + e.truncations))
  }

  lemma ThenNothing(idx: nat, rest: Result<DecodeOut, DecodeError>)
    ensures Then(DecodeOut("", idx, 0, []), rest) == rest
  {
    match rest
    case Ok(o) =>
      assert "" + o.text == o.text && [] + o.values == o.values;
    case Err(e) =>
  }

  lemma ThenAssoc(a: DecodeOut, b: DecodeOut, rest: Result<DecodeOut, DecodeError>)
    ensures Then(a, Then(b, rest)) == Then(DecodeOut(a.text + b.text, b.index, a.truncations + b.truncations, a.values + b.values), rest)
  {
    match rest
    case Ok(o) =>
      assert a.text + (b.text + o.text) == (a.text + b.text) + o.text;
      assert a.values + (b.values + o.values) == (a.values + b.values) + o.values;
    case Err(e) =>
  }

  /**
   * The main loop of decodeFromArgsBuffer() (and of printAtIndex, which
   * adds a guard): walks the format from the start, copying literal text,
   * reading one value per conversion from buf starting at idx0.
   */
  method DecodeArgs(f: string, buf: seq<u8>, idx0: nat, limit: int, g: Guard, render: (string, Value) -> string)
    returns (r: Result<DecodeOut, DecodeError>)
    requires idx0 <= |buf|
    ensures r == DecodeFrom(f, 0, buf, idx0, limit, g, render)
  {
    var i := 0;
    var acc := DecodeOut("", idx0, 0, []);
    ThenNothing(idx0, DecodeFrom(f, 0, buf, idx0, limit, g, render));
    while At(f, i) != NUL
      invariant i <= |f| && idx0 <= acc.index <= |buf|
      invariant DecodeFrom(f, 0, buf, idx0, limit, g, render) == Then(acc, DecodeFrom(f, i, buf, acc.index, limit, g, render))
      decreases |f| - i
    {
      var sr := DecodeOneStep(f, i, buf, acc.index, limit, render);
      if sr.Err? {
        return Err(DecodeError(sr.error, acc.truncations));
      }
      DecodeAdvance(f, i, buf, idx0, limit, g, render, acc, sr.value);
      acc, i := Extend(acc, sr.value), sr.value.next;
      if Stops(g, acc.index) {
        return Ok(acc);
      }
    }
    assert acc.text + "" == acc.text && acc.values + [] == acc.values;
    r := Ok(acc);
  }

  /** The body of the decoder's main loop at format position i. */
  method DecodeOneStep(f: string, i: nat, buf: seq<u8>, idx: nat, limit: int, render: (string, Value) -> string)
    returns (r: Result<Piece, FailKind>)
    requires i < |f| && idx <= |buf|
    ensures r == DecodeStep(f, i, buf, idx, limit, render)
  {
    if f[i] != '%' {
      return Ok(Piece([f[i]], i + 1, idx, false, None));
    }
    var conv := ScanSpecification(f, i);
    match conv
    case NotConv =>
      r := Ok(Piece([f[i]], i + 1, idx, false, None));
    case PercentSign(e) =>
      r := Ok(Piece(['%'], e, idx, false, None));
    case Conv(k, e) =>
      if k == KStr {
        var max := MaxString(limit, idx);
        if max < 0 {
          return Err(StringBoundNegative);
        }
        var sr, bytes := MemGetStringBounded(buf, idx, max);
        if sr.None? {
          return Err(ReadPastEnd);
        }
        var (len, truncated) := sr.value;
        r := Ok(Piece(BytesToChars(bytes), e, idx + len + 1, truncated, Some(Text(bytes))));
      } else {
        var v := MemGet(buf, idx, k);
        if v.None? {
          return Err(ReadPastEnd);
        }
        r := Ok(Piece(render(f[i..e], v.value), e, idx + Width(k), false, Some(v.value)));
      }
  }

  /** The source's StringFormat object: the codec plus its corruption counter. */
  class StringFormat {
    /** getStringCorruptedCount: strings cut short or refused by the decoder. */
    var getStringCorruptedCount: nat

    constructor ()
      ensures getStringCorruptedCount == 0
    {
      getStringCorruptedCount := 0;
    }

    /**
     * decodeFromArgsBuffer(): renders the format against the args buffer
     * from argsBufferIndex on; the output length bounds each string.
     */
    method DecodeFromArgsBuffer(f: string, argsBuffer: seq<u8>, argsBufferIndex: nat, outputStringMaxLength: int,
                                render: (string, Value) -> string)
      returns (r: Result<DecodeOut, DecodeError>)
      requires argsBufferIndex <= |argsBuffer|
      modifies this
      ensures r == DecodeFrom(f, 0, argsBuffer, argsBufferIndex, outputStringMaxLength, Unguarded, render)
      ensures getStringCorruptedCount == old(getStringCorruptedCount) + CorruptCount(r)
    {
      r := DecodeArgs(f, argsBuffer, argsBufferIndex, outputStringMaxLength, Unguarded, render);
      getStringCorruptedCount := getStringCorruptedCount + CorruptCount(r);
    }
  }

  /** Increments of getStringCorruptedCount: each truncated string, plus one for a negative bound. */
  function CorruptCount(r: Result<DecodeOut, DecodeError>): nat {
    match r
    case Ok(o) => o.truncations
    case Err(e) => e.truncations + (if e.kind == StringBoundNegative then 1 else 0)
  }
}
