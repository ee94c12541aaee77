/**
 * An independent description of the format strings the codec supports:
 * literal characters and conversion specifications made of an optional
 * flag, a width, an optional precision and a conversion from the
 * documented table. Over this grammar the encoder and the decoder agree:
 * decoding what was encoded gives back every value and the expected text.
 */
module FormatGrammar {
  import opened Wrappers
  import opened Bytes
  import opened StringFormat

  /** The length modifier of a conversion: none, "h", "hh", "l" or "ll". */
  datatype Length = NoLength | H | HH | L | LL

  datatype Spec = Spec(flag: Option<char>, width: string, precision: Option<string>, length: Length, letter: char)

  datatype Token = Lit(c: char) | Conversion(spec: Spec)

  /** A format as a list of tokens. */
  datatype Tokens = Nil | Cons(head: Token, tail: Tokens)

  predicate AllDigits(s: string) {
    forall k :: 0 <= k < |s| ==> IsDigit(s[k])
  }

  /** "%%": prints a '%' and reads nothing. */
  predicate IsPercent(s: Spec) {
    s.length == NoLength && s.letter == '%'
  }

  /** The conversions that read a value, by the documented table. */
  predicate IsValueSpec(s: Spec) {
    match s.length
    case NoLength => s.letter == 'c' || IsIntLetter(s.letter) || s.letter == 'f' || s.letter == 'p' || s.letter == 's'
    case H => IsShortLetter(s.letter)
    case HH => IsShortShortLetter(s.letter)
    case L => IsIntLetter(s.letter) || s.letter == 'f'
    case LL => IsIntLetter(s.letter)
  }

  /** The storage class of a value conversion. */
  function ConvKind(s: Spec): Kind
    requires IsValueSpec(s)
  {
    match s.length
    case H => KShort
    case HH => KShort
    case LL => KLong
    case L => if s.letter == 'f' then KDouble else KInt
    case NoLength =>
      if s.letter == 'c' then KChar
      else if s.letter == 'f' then KDouble
      else if s.letter == 'p' then KPtr
      else if s.letter == 's' then KStr
      else KInt
  }

  predicate WellFormedSpec(s: Spec) {
    && (s.flag.Some? ==> IsDecoderFlag(s.flag.value))
    && AllDigits(s.width)
    && (s.precision.Some? ==> AllDigits(s.precision.value))
    && (IsPercent(s) || IsValueSpec(s))
  }

  predicate WellFormedToken(t: Token) {
    match t
    case Lit(c) => c != '%' && c != NUL
    case Conversion(s) => WellFormedSpec(s)
  }

  predicate WellFormed(ts: Tokens) {
    ts.Cons? ==> WellFormedToken(ts.head) && WellFormed(ts.tail)
  }

  function FlagText(flag: Option<char>): string {
    if flag.Some? then [flag.value] else []
  }

  function PrecisionText(p: Option<string>): string {
    if p.Some? then ['.'] + p.value else []
  }

  function LengthText(l: Length): string {
    match l
    case NoLength => []
    case H => ['h']
    case HH => ['h', 'h']
    case L => ['l']
    case LL => ['l', 'l']
  }

  /** The length modifier and the conversion letter. */
  function ConvText(s: Spec): string {
    LengthText(s.length) + [s.letter]
  }

  function SpecText(s: Spec): string {
    ['%'] + (FlagText(s.flag) + (s.width + (PrecisionText(s.precision) + ConvText(s))))
  }

  function TokenText(t: Token): string {
    match t
    case Lit(c) => [c]
    case Conversion(s) => SpecText(s)
  }

  function Flatten(ts: Tokens): string {
    if ts.Nil? then [] else TokenText(ts.head) + Flatten(ts.tail)
  }

  predicate IsValueToken(t: Token) {
    t.Conversion? && !IsPercent(t.spec)
  }

  /** How many values a token sequence reads. */
  function Count(ts: Tokens): nat {
    if ts.Nil? then 0 else (if IsValueToken(ts.head) then 1 else 0) + Count(ts.tail)
  }

  /** Each value conversion has an argument of the type it reads. */
  predicate ArgsFit(ts: Tokens, args: seq<Arg>)
    requires WellFormed(ts)
  {
    if ts.Nil? then true
    else if IsValueToken(ts.head) then
      |args| > 0 && Stored(ConvKind(ts.head.spec), args[0]).Some? && ArgsFit(ts.tail, args[1..])
    else ArgsFit(ts.tail, args)
  }

  /** The values the encoder stores for the arguments, in order. */
  function Values(ts: Tokens, args: seq<Arg>): (vs: seq<Value>)
    requires WellFormed(ts) && ArgsFit(ts, args)
    ensures |vs| == Count(ts)
  {
    if ts.Nil? then []
    else if IsValueToken(ts.head) then [Stored(ConvKind(ts.head.spec), args[0]).value] + Values(ts.tail, args[1..])
    else Values(ts.tail, args)
  }

  /** The values match the conversions that read them, and stored strings hold no zero byte. */
  predicate Fits(ts: Tokens, vals: seq<Value>)
    requires WellFormed(ts)
  {
    if ts.Nil? then true
    else if IsValueToken(ts.head) then
      && |vals| > 0 && KindOf(vals[0]) == ConvKind(ts.head.spec)
      && (vals[0].Text? ==> 0 !in vals[0].bytes)
      && Fits(ts.tail, vals[1..])
    else Fits(ts.tail, vals)
  }

  /** The args-buffer bytes of a sequence of stored values. */
  function Payload(vals: seq<Value>): seq<u8> {
    if vals == [] then [] else MemSet(vals[0]) + Payload(vals[1..])
  }

  /** The text of one value: a string is copied, anything else is rendered with its specification. */
  function Rendered(s: Spec, v: Value, render: (string, Value) -> string): string {
    if v.Text? then BytesToChars(v.bytes) else render(SpecText(s), v)
  }

  /** The text the decoder renders: literals, '%' for "%%", each value rendered, strings copied raw (no width or precision). */
  function Expected(ts: Tokens, vals: seq<Value>, render: (string, Value) -> string): string
    requires WellFormed(ts) && Fits(ts, vals)
  {
    if ts.Nil? then []
    else match ts.head
      case Lit(c) => [c] + Expected(ts.tail, vals, render)
      case Conversion(s) =>
        if IsPercent(s) then ['%'] + Expected(ts.tail, vals, render)
        else
          Rendered(s, vals[0], render) + Expected(ts.tail, vals[1..], render)
  }

  // ---------------------------------------------------------------------
  // Positions inside a flattened format
  // ---------------------------------------------------------------------

  /** f holds text t at position p. */
  predicate HasAt(f: string, p: nat, t: string) {
    p + |t| <= |f| && f[p..p + |t|] == t
  }

  lemma CharAt(f: string, p: nat, t: string, x: nat)
    requires HasAt(f, p, t) && x < |t|
    ensures f[p + x] == t[x] && At(f, p + x) == t[x]
  {
    assert f[p..p + |t|][x] == f[p + x];
  }

  lemma HasAtSplit(f: string, p: nat, a: string, b: string)
    requires HasAt(f, p, a + b)
    ensures HasAt(f, p, a) && HasAt(f, p + |a|, b)
  {
    assert f[p..p + |a|] == (a + b)[..|a|];
    assert f[p + |a|..p + |a| + |b|] == (a + b)[|a|..];
  }

  /** HasAtSplit with the position of the second part given. */
  lemma HasAtSplitAt(f: string, p: nat, q: nat, a: string, b: string)
    requires HasAt(f, p, a + b) && q == p + |a|
    ensures HasAt(f, p, a) && HasAt(f, q, b) && q + |b| == p + |a + b|
  {
    HasAtSplit(f, p, a, b);
  }

  // ---------------------------------------------------------------------
  // Encoder over the grammar
  // ---------------------------------------------------------------------

  /** Outside a specification the encoder steps over text that has no '%'. */
  lemma {:induction false} EncodeSkipsLiterals(f: string, a: nat, b: nat, args: seq<Arg>)
    requires a <= b <= |f|
    requires forall q :: a <= q < b ==> f[q] != '%' && f[q] != NUL
    ensures EncodeFrom(f, a, false, args) == EncodeFrom(f, b, false, args)
    decreases b - a
  {
    if a < b {
      EncodeSkipsLiterals(f, a + 1, b, args);
    }
  }

  /** Inside a specification the encoder steps over flags, digits and '.'. */
  lemma {:induction false} EncodeSkipsFlags(f: string, a: nat, b: nat, args: seq<Arg>)
    requires a <= b <= |f|
    requires forall q :: a <= q < b ==> IsEncoderFlag(f[q])
    ensures EncodeFrom(f, a, true, args) == EncodeFrom(f, b, true, args)
    decreases b - a
  {
    if a < b {
      assert EncStep(f, a) == KeepInside;
      EncodeSkipsFlags(f, a + 1, b, args);
    }
  }

  /** At the conversion letters the encoder stores one argument and resumes after them. */
  lemma {:induction false} EncodeConversion(f: string, c: nat, e: nat, s: Spec, args: seq<Arg>)
    requires HasAt(f, c, ConvText(s)) && IsValueSpec(s) && e == c + |ConvText(s)|
    requires args != [] && Stored(ConvKind(s), args[0]).Some?
    ensures EncodeFrom(f, c, true, args)
         == Prepend(MemSet(Stored(ConvKind(s), args[0]).value), EncodeFrom(f, e, false, args[1..]))
  {
    var t := ConvText(s);
    CharAt(f, c, t, 0);
    var k := ConvKind(s);
    match s.length
    case NoLength =>
      assert EncStep(f, c) == Consume(k, c + 1);
    case H =>
      CharAt(f, c, t, 1);
      assert EncStep(f, c) == Consume(k, c + 1);
      EncodeSkipsLiterals(f, c + 1, e, args[1..]);
    case L =>
      CharAt(f, c, t, 1);
      assert EncStep(f, c) == Consume(k, c + 1);
      EncodeSkipsLiterals(f, c + 1, e, args[1..]);
    case HH =>
      CharAt(f, c, t, 1);
      CharAt(f, c, t, 2);
      assert EncStep(f, c) == Consume(k, c);
      EncodeSkipsLiterals(f, c, e, args[1..]);
    case LL =>
      CharAt(f, c, t, 1);
      CharAt(f, c, t, 2);
      assert EncStep(f, c) == Consume(k, c + 2);
      EncodeSkipsLiterals(f, c + 2, e, args[1..]);
  }

  /** Where the width, the precision and the conversion letters of a specification at p start. */
  function WidthStart(p: nat, s: Spec): nat {
    p + 1 + |FlagText(s.flag)|
  }

  function PrecisionStart(p: nat, s: Spec): nat {
    WidthStart(p, s) + |s.width|
  }

  function ConvStart(p: nat, s: Spec): nat {
    PrecisionStart(p, s) + |PrecisionText(s.precision)|
  }

  /** The parts of a specification's text: '%' at p, then flag, width, precision and conversion. */
  lemma SpecParts(f: string, p: nat, s: Spec)
    requires HasAt(f, p, SpecText(s))
    ensures p < |f| && f[p] == '%'
    ensures HasAt(f, p + 1, FlagText(s.flag))
    ensures HasAt(f, WidthStart(p, s), s.width)
    ensures HasAt(f, PrecisionStart(p, s), PrecisionText(s.precision))
    ensures HasAt(f, ConvStart(p, s), ConvText(s))
    ensures p + |SpecText(s)| == ConvStart(p, s) + |ConvText(s)|
  {
    HasAtSplitAt(f, p, p + 1, ['%'], FlagText(s.flag) + (s.width + (PrecisionText(s.precision) + ConvText(s))));
    HasAtSplitAt(f, p + 1, WidthStart(p, s), FlagText(s.flag), s.width + (PrecisionText(s.precision) + ConvText(s)));
    HasAtSplitAt(f, WidthStart(p, s), PrecisionStart(p, s), s.width, PrecisionText(s.precision) + ConvText(s));
    HasAtSplitAt(f, PrecisionStart(p, s), ConvStart(p, s), PrecisionText(s.precision), ConvText(s));
    CharAt(f, p, ['%'], 0);
  }

  /** The flag, width, '.' and precision characters of a specification are all ones the encoder steps over. */
  lemma SpecMiddle(f: string, p: nat, s: Spec)
    requires WellFormedSpec(s) && HasAt(f, p, SpecText(s))
    ensures forall q :: p + 1 <= q < ConvStart(p, s) ==> IsEncoderFlag(f[q])
  {
    SpecParts(f, p, s);
    forall q | p + 1 <= q < ConvStart(p, s)
      ensures IsEncoderFlag(f[q])
    {
      if q < WidthStart(p, s) {
        CharAt(f, p + 1, FlagText(s.flag), q - p - 1);
      } else if q < PrecisionStart(p, s) {
        CharAt(f, WidthStart(p, s), s.width, q - WidthStart(p, s));
      } else {
        var x := q - PrecisionStart(p, s);
        CharAt(f, PrecisionStart(p, s), PrecisionText(s.precision), x);
        if x > 0 {
          assert PrecisionText(s.precision)[x] == s.precision.value[x - 1];
        }
      }
    }
  }

  /** Encoding "%%" (with flags or width) stores nothing. */
  lemma {:induction false} EncodePercentSpec(f: string, p: nat, q: nat, s: Spec, args: seq<Arg>)
    requires WellFormedSpec(s) && IsPercent(s) && HasAt(f, p, SpecText(s)) && q == p + |SpecText(s)|
    ensures EncodeFrom(f, p, false, args) == EncodeFrom(f, q, false, args)
  {
    var c := ConvStart(p, s);
    SpecParts(f, p, s);
    SpecMiddle(f, p, s);
    CharAt(f, c, ConvText(s), 0);
    calc {
      EncodeFrom(f, p, false, args);
      EncodeFrom(f, p + 1, true, args);
      { EncodeSkipsFlags(f, p + 1, c, args); }
      EncodeFrom(f, c, true, args);
      EncodeFrom(f, c + 1, false, args);
    }
  }

  /** Encoding a value specification stores the argument it reads and resumes at q, where its text ends. */
  lemma {:induction false} EncodeValueSpec(f: string, p: nat, q: nat, s: Spec, args: seq<Arg>)
    requires WellFormedSpec(s) && !IsPercent(s) && HasAt(f, p, SpecText(s)) && q == p + |SpecText(s)|
    requires args != [] && Stored(ConvKind(s), args[0]).Some?
    ensures EncodeFrom(f, p, false, args)
         == Prepend(MemSet(Stored(ConvKind(s), args[0]).value), EncodeFrom(f, q, false, args[1..]))
  {
    var c := ConvStart(p, s);
    SpecParts(f, p, s);
    SpecMiddle(f, p, s);
    var v := Stored(ConvKind(s), args[0]).value;
    calc {
      EncodeFrom(f, p, false, args);
      EncodeFrom(f, p + 1, true, args);
      { EncodeSkipsFlags(f, p + 1, c, args); }
      EncodeFrom(f, c, true, args);
      { EncodeConversion(f, c, q, s, args); }
      Prepend(MemSet(v), EncodeFrom(f, q, false, args[1..]));
    }
  }

  /**
   * Encoding a token sequence stores the values of its arguments, in order, and nothing else;
   * it then goes on at e, where the sequence's text ends, with the arguments not yet read.
   */
  lemma {:induction false} EncodeTokens(f: string, p: nat, e: nat, ts: Tokens, args: seq<Arg>)
    requires WellFormed(ts) && ArgsFit(ts, args) && HasAt(f, p, Flatten(ts)) && e == p + |Flatten(ts)|
    ensures Count(ts) <= |args|
    ensures EncodeFrom(f, p, false, args) == Prepend(Payload(Values(ts, args)), EncodeFrom(f, e, false, args[Count(ts)..]))
    decreases ts, 1
  {
    if ts.Nil? {
      assert args[0..] == args;
      PrependNothing(EncodeFrom(f, p, false, args));
    } else if IsValueToken(ts.head) {
      EncodeValueCons(f, p, e, ts, args);
    } else {
      EncodeOtherCons(f, p, e, ts, args);
    }
  }

  /** EncodeTokens when the sequence starts with a value conversion. */
  lemma {:induction false} EncodeValueCons(f: string, p: nat, e: nat, ts: Tokens, args: seq<Arg>)
    requires ts.Cons? && IsValueToken(ts.head)
    requires WellFormed(ts) && ArgsFit(ts, args) && HasAt(f, p, Flatten(ts)) && e == p + |Flatten(ts)|
    ensures Count(ts) <= |args|
    ensures EncodeFrom(f, p, false, args) == Prepend(Payload(Values(ts, args)), EncodeFrom(f, e, false, args[Count(ts)..]))
    decreases ts, 0
  {
    var q := p + |TokenText(ts.head)|;
    HasAtSplitAt(f, p, q, TokenText(ts.head), Flatten(ts.tail));
    ValueConsShape(ts, args);
    var rest := args[1..];
    var left := rest[Count(ts.tail)..];
    var head := MemSet(Stored(ConvKind(ts.head.spec), args[0]).value);
    var tail := Payload(Values(ts.tail, rest));
    EncodeTokens(f, q, e, ts.tail, rest);
    EncodeValueSpec(f, p, q, ts.head.spec, args);
    EncodeCons(f, p, q, e, args, rest, left, args[Count(ts)..], head, tail, Payload(Values(ts, args)));
  }

  /**
   * One step of the encoder followed by the encoding of the rest: the step's
   * bytes come first in the buffer, the rest's after them.
   */
  lemma EncodeCons(f: string, p: nat, q: nat, e: nat, args: seq<Arg>, rest: seq<Arg>, left: seq<Arg>, left': seq<Arg>,
                   head: seq<u8>, tail: seq<u8>, all: seq<u8>)
    requires p <= |f| && q <= |f| && e <= |f|
    requires EncodeFrom(f, p, false, args) == Prepend(head, EncodeFrom(f, q, false, rest))
    requires EncodeFrom(f, q, false, rest) == Prepend(tail, EncodeFrom(f, e, false, left))
    requires left == left' && all == head + tail
    ensures EncodeFrom(f, p, false, args) == Prepend(all, EncodeFrom(f, e, false, left'))
  {
    PrependPrepend(head, tail, EncodeFrom(f, e, false, left));
  }

  /** EncodeTokens when the sequence starts with a literal or "%%". */
  lemma {:induction false} EncodeOtherCons(f: string, p: nat, e: nat, ts: Tokens, args: seq<Arg>)
    requires ts.Cons? && !IsValueToken(ts.head)
    requires WellFormed(ts) && ArgsFit(ts, args) && HasAt(f, p, Flatten(ts)) && e == p + |Flatten(ts)|
    ensures Count(ts) <= |args|
    ensures EncodeFrom(f, p, false, args) == Prepend(Payload(Values(ts, args)), EncodeFrom(f, e, false, args[Count(ts)..]))
    decreases ts, 0
  {
    var q := p + |TokenText(ts.head)|;
    HasAtSplit(f, p, TokenText(ts.head), Flatten(ts.tail));
    OtherConsShape(ts, args);
    EncodeTokens(f, q, e, ts.tail, args);
    EncodeOtherStep(f, p, q, ts.head, args);
    EncodeSame(f, p, q, e, args, args[Count(ts.tail)..], args[Count(ts)..],
      Payload(Values(ts.tail, args)), Payload(Values(ts, args)));
  }

  /** A step of the encoder that stores nothing leaves the rest's bytes as they are. */
  lemma EncodeSame(f: string, p: nat, q: nat, e: nat, args: seq<Arg>, left: seq<Arg>, left': seq<Arg>,
                   tail: seq<u8>, all: seq<u8>)
    requires p <= |f| && q <= |f| && e <= |f|
    requires EncodeFrom(f, p, false, args) == EncodeFrom(f, q, false, args)
    requires EncodeFrom(f, q, false, args) == Prepend(tail, EncodeFrom(f, e, false, left))
    requires left == left' && all == tail
    ensures EncodeFrom(f, p, false, args) == Prepend(all, EncodeFrom(f, e, false, left'))
  {
  }

  /** A literal or "%%" stores nothing. */
  lemma EncodeOtherStep(f: string, p: nat, q: nat, t: Token, args: seq<Arg>)
    requires WellFormedToken(t) && !IsValueToken(t) && HasAt(f, p, TokenText(t)) && q == p + |TokenText(t)|
    ensures EncodeFrom(f, p, false, args) == EncodeFrom(f, q, false, args)
  {
    if t.Lit? {
      CharAt(f, p, TokenText(t), 0);
      EncodeSkipsLiterals(f, p, q, args);
    } else {
      EncodePercentSpec(f, p, q, t.spec, args);
    }
  }

  /** How a value conversion at the head of a token sequence splits its count, values and payload. */
  lemma ValueConsShape(ts: Tokens, args: seq<Arg>)
    requires ts.Cons? && WellFormed(ts) && WellFormed(ts.tail) && WellFormedToken(ts.head) && IsValueToken(ts.head)
    requires ArgsFit(ts, args)
    ensures |args| > 0 && Stored(ConvKind(ts.head.spec), args[0]).Some? && ArgsFit(ts.tail, args[1..])
    ensures Count(ts) == 1 + Count(ts.tail) && Count(ts.tail) <= |args[1..]|
    ensures TokenText(ts.head) == SpecText(ts.head.spec)
    ensures args[1..][Count(ts.tail)..] == args[Count(ts)..]
    ensures Payload(Values(ts, args))
         == MemSet(Stored(ConvKind(ts.head.spec), args[0]).value) + Payload(Values(ts.tail, args[1..]))
  {
    ArgsFitCount(ts.tail, args[1..]);
    var v := Stored(ConvKind(ts.head.spec), args[0]).value;
    var vs := Values(ts.tail, args[1..]);
    assert Values(ts, args) == [v] + vs;
    assert ([v] + vs)[1..] == vs;
  }

  /** Arguments that fit a token sequence are at least as many as the values it reads. */
  lemma {:induction false} ArgsFitCount(ts: Tokens, args: seq<Arg>)
    requires WellFormed(ts) && ArgsFit(ts, args)
    ensures Count(ts) <= |args|
    decreases ts
  {
    if ts.Cons? {
      if IsValueToken(ts.head) {
        ArgsFitCount(ts.tail, args[1..]);
      } else {
        ArgsFitCount(ts.tail, args);
      }
    }
  }

  /** A literal or "%%" at the head of a token sequence reads no value. */
  lemma OtherConsShape(ts: Tokens, args: seq<Arg>)
    requires ts.Cons? && WellFormed(ts) && WellFormed(ts.tail) && WellFormedToken(ts.head) && !IsValueToken(ts.head)
    requires ArgsFit(ts, args)
    ensures ArgsFit(ts.tail, args) && Count(ts) == Count(ts.tail)
    ensures Values(ts, args) == Values(ts.tail, args)
  {
  }

  // ---------------------------------------------------------------------
  // Decoder over the grammar
  // ---------------------------------------------------------------------

  lemma {:induction false} SkipDigitsRun(f: string, a: nat, b: nat)
    requires a <= b <= |f|
    requires forall q :: a <= q < b ==> IsDigit(f[q])
    requires !IsDigit(At(f, b))
    ensures SkipDigits(f, a) == b
    decreases b - a
  {
    if a < b {
      SkipDigitsRun(f, a + 1, b);
    }
  }

  /** The conversion letters are recognised with the kind the table gives them, ending at e. */
  lemma DecodeConversionLetters(f: string, c: nat, e: nat, s: Spec)
    requires HasAt(f, c, ConvText(s)) && (IsPercent(s) || IsValueSpec(s)) && e == c + |ConvText(s)|
    ensures IsPercent(s) ==> DecConvAt(f, c) == PercentSign(e)
    ensures !IsPercent(s) ==> DecConvAt(f, c) == Conv(ConvKind(s), e)
  {
    var t := ConvText(s);
    CharAt(f, c, t, 0);
    if |t| >= 2 {
      CharAt(f, c, t, 1);
    }
    if |t| == 3 {
      CharAt(f, c, t, 2);
    }
  }

  /** A run of digits placed at p in f. */
  lemma DigitsAt(f: string, p: nat, w: string)
    requires HasAt(f, p, w) && AllDigits(w)
    ensures forall q :: p <= q < p + |w| ==> IsDigit(f[q])
  {
    forall q | p <= q < p + |w|
      ensures IsDigit(f[q])
    {
      CharAt(f, p, w, q - p);
    }
  }

  /** The decoder's flag test and width digits end where the width ends. */
  lemma ScanWidth(f: string, p: nat, s: Spec)
    requires WellFormedSpec(s) && HasAt(f, p, SpecText(s))
    ensures SkipDigits(f, if IsDecoderFlag(At(f, p + 1)) then p + 2 else p + 1) == PrecisionStart(p, s)
  {
    SpecParts(f, p, s);
    var F, W, P, C := FlagText(s.flag), s.width, PrecisionText(s.precision), ConvText(s);
    var w0, pr := WidthStart(p, s), PrecisionStart(p, s);
    DigitsAt(f, w0, W);
    if P != [] {
      CharAt(f, pr, P, 0);
    } else {
      CharAt(f, ConvStart(p, s), C, 0);
    }
    if F != [] {
      CharAt(f, p + 1, F, 0);
    } else if W != [] {
      CharAt(f, w0, W, 0);
    }
    SkipDigitsRun(f, if IsDecoderFlag(At(f, p + 1)) then p + 2 else p + 1, pr);
  }

  /** The decoder's '.' test and precision digits end where the conversion letters start. */
  lemma ScanPrecision(f: string, p: nat, s: Spec)
    requires WellFormedSpec(s) && HasAt(f, p, SpecText(s))
    ensures var pr := PrecisionStart(p, s);
      SkipDigits(f, if At(f, pr) == '.' then pr + 1 else pr) == ConvStart(p, s)
  {
    SpecParts(f, p, s);
    var P, C := PrecisionText(s.precision), ConvText(s);
    var pr, c := PrecisionStart(p, s), ConvStart(p, s);
    CharAt(f, c, C, 0);
    if P != [] {
      var digits := s.precision.value;
      CharAt(f, pr, P, 0);
      forall q | pr + 1 <= q < c
        ensures IsDigit(f[q])
      {
        CharAt(f, pr, P, q - pr);
        assert P[q - pr] == digits[q - pr - 1];
      }
      SkipDigitsRun(f, pr + 1, c);
    } else {
      SkipDigitsRun(f, pr, c);
    }
  }

  /** The decoder's scan of a well-formed specification at p ends at e, where its text ends. */
  lemma DecodeScanSpec(f: string, p: nat, e: nat, s: Spec)
    requires WellFormedSpec(s) && HasAt(f, p, SpecText(s)) && e == p + |SpecText(s)|
    ensures p < |f| && f[p] == '%'
    ensures IsPercent(s) ==> DecScan(f, p) == PercentSign(e)
    ensures !IsPercent(s) ==> DecScan(f, p) == Conv(ConvKind(s), e)
  {
    ScanToConversion(f, p, s);
    SpecParts(f, p, s);
    DecodeConversionLetters(f, ConvStart(p, s), e, s);
  }

  /** The decoder's flag, width and precision scan of a well-formed specification stops at its conversion letters. */
  lemma ScanToConversion(f: string, p: nat, s: Spec)
    requires WellFormedSpec(s) && HasAt(f, p, SpecText(s))
    ensures p < |f| && f[p] == '%' && ConvStart(p, s) <= |f|
    ensures DecScan(f, p) == DecConvAt(f, ConvStart(p, s))
  {
    SpecParts(f, p, s);
    ScanWidth(f, p, s);
    ScanPrecision(f, p, s);
    DecScanThrough(f, p, PrecisionStart(p, s), ConvStart(p, s));
  }

  /** The decoder's scan at i, given where its width digits and its precision digits end. */
  lemma DecScanThrough(f: string, i: nat, pr: nat, c: nat)
    requires i < |f| && f[i] == '%'
    requires SkipDigits(f, if IsDecoderFlag(At(f, i + 1)) then i + 2 else i + 1) == pr
    requires SkipDigits(f, if At(f, pr) == '.' then pr + 1 else pr) == c
    ensures DecScan(f, i) == DecConvAt(f, c)
  {
  }

  /** The bounded string read stops exactly at the stored terminator. */
  lemma {:induction false} BoundedStringOfStored(buf: seq<u8>, idx: nat, s: seq<u8>, max: nat)
    requires 0 !in s && HasBytesAt(buf, idx, s + [0]) && |s| <= max
    ensures BoundedString(buf, idx, max) == Some((|s|, false))
    ensures buf[idx..idx + |s|] == s
  {
    assert buf[idx..idx + |s|] == (s + [0])[..|s|];
    assert buf[idx + |s|] == (s + [0])[|s|];
    forall k | idx <= k < idx + |s|
      ensures buf[k] != 0
    {
      assert buf[k] == s[k - idx];
    }
    NonZeroRunExact(buf, idx, |s|);
  }

  lemma {:induction false} NonZeroRunExact(buf: seq<u8>, j: nat, n: nat)
    requires j + n < |buf| && buf[j + n] == 0
    requires forall k :: j <= k < j + n ==> buf[k] != 0
    ensures NonZeroRun(buf, j) == n
    decreases n
  {
    if n > 0 {
      NonZeroRunExact(buf, j + 1, n - 1);
    }
  }

  predicate HasBytesAt(buf: seq<u8>, idx: nat, b: seq<u8>) {
    idx + |b| <= |buf| && buf[idx..idx + |b|] == b
  }

  lemma BytesSplit(buf: seq<u8>, idx: nat, a: seq<u8>, b: seq<u8>)
    requires HasBytesAt(buf, idx, a + b)
    ensures HasBytesAt(buf, idx, a) && HasBytesAt(buf, idx + |a|, b)
  {
    assert buf[idx..idx + |a|] == (a + b)[..|a|];
    assert buf[idx + |a|..idx + |a| + |b|] == (a + b)[|a|..];
  }

  /** The conditions under which the decoder reads a payload back in full. */
  predicate ReadableAt(buf: seq<u8>, idx: nat, payload: seq<u8>, limit: int, g: Guard) {
    && HasBytesAt(buf, idx, payload)
    && idx + |payload| <= limit < 0x8000_0000
    && (g.StopPast? ==> g.base as int + idx + |payload| <= g.size as int)
  }

  /** Decoding one specification at p reads back its stored value and renders it, resuming at e and idx'. */
  lemma {:induction false} DecodeSpec(f: string, p: nat, e: nat, s: Spec, v: Value, buf: seq<u8>, idx: nat, idx': nat,
                                       limit: int, render: (string, Value) -> string)
    requires WellFormedSpec(s) && !IsPercent(s) && HasAt(f, p, SpecText(s)) && e == p + |SpecText(s)|
    requires KindOf(v) == ConvKind(s) && (v.Text? ==> 0 !in v.bytes)
    requires HasBytesAt(buf, idx, MemSet(v)) && idx' == idx + |MemSet(v)| && idx' <= limit < 0x8000_0000
    ensures DecodeStep(f, p, buf, idx, limit, render) == Ok(Piece(Rendered(s, v, render), e, idx', false, Some(v)))
  {
    DecodeScanSpec(f, p, e, s);
    if v.Text? {
      DecodeStoredText(f, p, e, v.bytes, buf, idx, idx', limit, render);
    } else {
      assert f[p..e] == SpecText(s);
      DecodeStoredNumber(f, p, e, v, buf, idx, idx', limit, render);
    }
  }

  /** A "%s" whose string is stored with its terminator reads the string back, untruncated. */
  lemma DecodeStoredText(f: string, p: nat, e: nat, bytes: seq<u8>, buf: seq<u8>, idx: nat, idx': nat, limit: int,
                         render: (string, Value) -> string)
    requires p < |f| && f[p] == '%' && DecScan(f, p) == Conv(KStr, e)
    requires 0 !in bytes && HasBytesAt(buf, idx, bytes + [0]) && idx' == idx + |bytes| + 1 && idx' <= limit < 0x8000_0000
    ensures DecodeStep(f, p, buf, idx, limit, render) == Ok(Piece(BytesToChars(bytes), e, idx', false, Some(Text(bytes))))
  {
    MaxStringExact(limit, idx);
    BoundedStringOfStored(buf, idx, bytes, limit - idx - 1);
  }

  /** A numeric conversion whose value is stored in its width reads the value back and renders it. */
  lemma DecodeStoredNumber(f: string, p: nat, e: nat, v: Value, buf: seq<u8>, idx: nat, idx': nat, limit: int,
                           render: (string, Value) -> string)
    requires p < |f| && f[p] == '%' && DecScan(f, p) == Conv(KindOf(v), e) && !v.Text?
    requires HasBytesAt(buf, idx, MemSet(v)) && idx' == idx + |MemSet(v)|
    ensures DecodeStep(f, p, buf, idx, limit, render) == Ok(Piece(render(f[p..e], v), e, idx', false, Some(v)))
  {
    MemGetOfMemSet(v, buf, idx);
  }

  /** How a value conversion at the head of a token sequence splits its values, payload and text. */
  lemma DecodeValueShape(ts: Tokens, vals: seq<Value>, render: (string, Value) -> string)
    requires ts.Cons? && WellFormed(ts) && IsValueToken(ts.head)
    requires Fits(ts, vals) && |vals| == Count(ts)
    ensures WellFormed(ts.tail) && WellFormedSpec(ts.head.spec) && !IsPercent(ts.head.spec)
    ensures vals != [] && Fits(ts.tail, vals[1..]) && |vals[1..]| == Count(ts.tail)
    ensures KindOf(vals[0]) == ConvKind(ts.head.spec) && (vals[0].Text? ==> 0 !in vals[0].bytes)
    ensures TokenText(ts.head) == SpecText(ts.head.spec)
    ensures [vals[0]] + vals[1..] == vals
    ensures Payload(vals) == MemSet(vals[0]) + Payload(vals[1..])
    ensures Expected(ts, vals, render) == Rendered(ts.head.spec, vals[0], render) + Expected(ts.tail, vals[1..], render)
  {
  }

  /** A literal or "%%" at the head of a token sequence reads no value. */
  lemma DecodeOtherShape(ts: Tokens, vals: seq<Value>, render: (string, Value) -> string)
    requires ts.Cons? && WellFormed(ts) && !IsValueToken(ts.head)
    requires Fits(ts, vals) && |vals| == Count(ts)
    ensures WellFormed(ts.tail) && WellFormedToken(ts.head)
    ensures Fits(ts.tail, vals) && |vals| == Count(ts.tail)
    ensures Expected(ts, vals, render) == OtherText(ts.head) + Expected(ts.tail, vals, render)
    ensures [] + vals == vals
  {
  }

  /** The text of a token sequence is its head's text followed by the text of the rest. */
  lemma FlattenSplit(f: string, p: nat, q: nat, e: nat, ts: Tokens)
    requires ts.Cons? && HasAt(f, p, Flatten(ts)) && e == p + |Flatten(ts)| && q == p + |TokenText(ts.head)|
    ensures HasAt(f, p, TokenText(ts.head)) && HasAt(f, q, Flatten(ts.tail)) && e == q + |Flatten(ts.tail)|
  {
    HasAtSplit(f, p, TokenText(ts.head), Flatten(ts.tail));
  }

  /** The payload of a value sequence is its head's bytes followed by the payload of the rest. */
  lemma PayloadCons(vals: seq<Value>, v: Value, rest: seq<Value>)
    requires vals != [] && v == vals[0] && rest == vals[1..]
    ensures Payload(vals) == MemSet(v) + Payload(rest)
  {
  }

  /** A readable concatenation is readable piece by piece, and the guard is open where the second piece starts. */
  lemma ReadableSplit(buf: seq<u8>, idx: nat, a: seq<u8>, b: seq<u8>, limit: int, g: Guard)
    requires ReadableAt(buf, idx, a + b, limit, g)
    ensures HasBytesAt(buf, idx, a) && idx + |a| <= limit < 0x8000_0000
    ensures ReadableAt(buf, idx + |a|, b, limit, g)
    ensures idx <= |buf| && !Stops(g, idx + |a|)
  {
    BytesSplit(buf, idx, a, b);
    GuardOpen(g, idx + |a|, idx + |a + b|);
  }

  /** Below the guard's bound the guard does not stop the decoder. */
  lemma GuardOpen(g: Guard, idx: nat, end: nat)
    requires idx <= end && (g.StopPast? ==> g.base as int + end <= g.size as int)
    ensures !Stops(g, idx)
  {
  }

  /**
   * Decoding a token sequence whose values are stored from idx on reads them back
   * value by value and renders the expected text; it then goes on at e, where the
   * sequence's text ends, with idx', where its payload ends.
   */
  lemma {:induction false} DecodeTokens(f: string, p: nat, e: nat, ts: Tokens, vals: seq<Value>, buf: seq<u8>,
                                         idx: nat, idx': nat, limit: int, g: Guard, render: (string, Value) -> string)
    requires WellFormed(ts) && Fits(ts, vals) && |vals| == Count(ts)
    requires HasAt(f, p, Flatten(ts)) && e == p + |Flatten(ts)|
    requires ReadableAt(buf, idx, Payload(vals), limit, g) && idx' == idx + |Payload(vals)|
    ensures DecodeFrom(f, p, buf, idx, limit, g, render)
         == Then(DecodeOut(Expected(ts, vals, render), idx', 0, vals), DecodeFrom(f, e, buf, idx', limit, g, render))
    decreases ts, 1
  {
    if ts.Nil? {
      ThenNothing(idx, DecodeFrom(f, p, buf, idx, limit, g, render));
    } else if IsValueToken(ts.head) {
      DecodeValueCons(f, p, e, ts, vals, buf, idx, idx', limit, g, render);
    } else {
      DecodeOtherCons(f, p, e, ts, vals, buf, idx, idx', limit, g, render);
    }
  }

  /** DecodeTokens when the sequence starts with a value conversion. */
  lemma {:induction false} DecodeValueCons(f: string, p: nat, e: nat, ts: Tokens, vals: seq<Value>, buf: seq<u8>,
                                            idx: nat, idx': nat, limit: int, g: Guard, render: (string, Value) -> string)
    requires ts.Cons? && IsValueToken(ts.head)
    requires WellFormed(ts) && Fits(ts, vals) && |vals| == Count(ts)
    requires HasAt(f, p, Flatten(ts)) && e == p + |Flatten(ts)|
    requires ReadableAt(buf, idx, Payload(vals), limit, g) && idx' == idx + |Payload(vals)|
    ensures DecodeFrom(f, p, buf, idx, limit, g, render)
         == Then(DecodeOut(Expected(ts, vals, render), idx', 0, vals), DecodeFrom(f, e, buf, idx', limit, g, render))
    decreases ts, 0
  {
    var q := p + |TokenText(ts.head)|;
    assert Count(ts) == Count(ts.tail) + 1;
    var v, rest := vals[0], vals[1..];
    var idx1 := idx + |MemSet(v)|;
    DecodeValueTail(f, p, q, e, ts, vals, v, rest, buf, idx, idx1, idx', limit, g);
    DecodeValueHead(f, p, q, e, ts, vals, v, rest, buf, idx, idx1, idx', limit, g, render);
    DecodeTokens(f, q, e, ts.tail, rest, buf, idx1, idx', limit, g, render);
    DecodeCons(f, p, q, e, buf, idx, idx1, idx', limit, g, render,
      Rendered(ts.head.spec, v, render), Some(v), Expected(ts.tail, rest, render), rest, Expected(ts, vals, render), vals);
  }

  /** What DecodeValueCons needs about the rest of the sequence after the head conversion, stored as v. */
  lemma DecodeValueTail(f: string, p: nat, q: nat, e: nat, ts: Tokens, vals: seq<Value>, v: Value, rest: seq<Value>,
                        buf: seq<u8>, idx: nat, idx1: nat, idx': nat, limit: int, g: Guard)
    requires ts.Cons? && IsValueToken(ts.head)
    requires WellFormed(ts) && Fits(ts, vals) && |vals| == Count(ts)
    requires vals != [] && v == vals[0] && rest == vals[1..] && idx1 == idx + |MemSet(v)|
    requires HasAt(f, p, Flatten(ts)) && e == p + |Flatten(ts)| && q == p + |TokenText(ts.head)|
    requires ReadableAt(buf, idx, Payload(vals), limit, g) && idx' == idx + |Payload(vals)|
    ensures WellFormed(ts.tail) && Fits(ts.tail, rest) && |rest| == Count(ts.tail)
    ensures HasAt(f, q, Flatten(ts.tail)) && e == q + |Flatten(ts.tail)|
    ensures ReadableAt(buf, idx1, Payload(rest), limit, g) && idx' == idx1 + |Payload(rest)|
    ensures q <= |f| && idx1 <= |buf| && e <= |f| && idx' <= |buf| && !Stops(g, idx1)
  {
    ValueTailFits(ts, vals, rest);
    FlattenSplit(f, p, q, e, ts);
    PayloadCons(vals, v, rest);
    ReadableSplit(buf, idx, MemSet(v), Payload(rest), limit, g);
  }

  /** The values after the head conversion's value fit the rest of the sequence. */
  lemma ValueTailFits(ts: Tokens, vals: seq<Value>, rest: seq<Value>)
    requires ts.Cons? && WellFormed(ts) && IsValueToken(ts.head)
    requires Fits(ts, vals) && |vals| == Count(ts) && vals != [] && rest == vals[1..]
    ensures WellFormed(ts.tail) && Fits(ts.tail, rest) && |rest| == Count(ts.tail)
  {
  }

  /** What DecodeValueCons needs about the step that decodes the head conversion, stored as v. */
  lemma DecodeValueHead(f: string, p: nat, q: nat, e: nat, ts: Tokens, vals: seq<Value>, v: Value, rest: seq<Value>,
                        buf: seq<u8>, idx: nat, idx1: nat, idx': nat, limit: int, g: Guard, render: (string, Value) -> string)
    requires ts.Cons? && IsValueToken(ts.head)
    requires WellFormed(ts) && Fits(ts, vals) && |vals| == Count(ts)
    requires vals != [] && v == vals[0] && rest == vals[1..] && idx1 == idx + |MemSet(v)|
    requires HasAt(f, p, Flatten(ts)) && e == p + |Flatten(ts)| && q == p + |TokenText(ts.head)|
    requires ReadableAt(buf, idx, Payload(vals), limit, g) && idx' == idx + |Payload(vals)|
    ensures p < |f| && At(f, p) != NUL && idx <= |buf|
    ensures DecodeStep(f, p, buf, idx, limit, render) == Ok(Piece(Rendered(ts.head.spec, v, render), q, idx1, false, Some(v)))
    ensures Expected(ts, vals, render) == Rendered(ts.head.spec, v, render) + Expected(ts.tail, rest, render)
    ensures vals == [v] + rest
  {
    DecodeValueShape(ts, vals, render);
    FlattenSplit(f, p, q, e, ts);
    PayloadCons(vals, v, rest);
    ReadableSplit(buf, idx, MemSet(v), Payload(rest), limit, g);
    DecodeSpec(f, p, q, ts.head.spec, v, buf, idx, idx1, limit, render);
    CharAt(f, p, TokenText(ts.head), 0);
  }

  /** DecodeTokens when the sequence starts with a literal or "%%". */
  lemma {:induction false} DecodeOtherCons(f: string, p: nat, e: nat, ts: Tokens, vals: seq<Value>, buf: seq<u8>,
                                            idx: nat, idx': nat, limit: int, g: Guard, render: (string, Value) -> string)
    requires ts.Cons? && !IsValueToken(ts.head)
    requires WellFormed(ts) && Fits(ts, vals) && |vals| == Count(ts)
    requires HasAt(f, p, Flatten(ts)) && e == p + |Flatten(ts)|
    requires ReadableAt(buf, idx, Payload(vals), limit, g) && idx' == idx + |Payload(vals)|
    ensures DecodeFrom(f, p, buf, idx, limit, g, render)
         == Then(DecodeOut(Expected(ts, vals, render), idx', 0, vals), DecodeFrom(f, e, buf, idx', limit, g, render))
    decreases ts, 0
  {
    var q := p + |TokenText(ts.head)|;
    DecodeOtherShape(ts, vals, render);
    FlattenSplit(f, p, q, e, ts);
    GuardOpen(g, idx, idx');
    DecodeOtherStep(f, p, q, ts.head, buf, idx, limit, render);
    DecodeTokens(f, q, e, ts.tail, vals, buf, idx, idx', limit, g, render);
    DecodeCons(f, p, q, e, buf, idx, idx, idx', limit, g, render,
      OtherText(ts.head), None, Expected(ts.tail, vals, render), vals, Expected(ts, vals, render), vals);
  }

  /**
   * One step of the decoder followed by the decoding of the rest: the step's
   * text and value come first in the output, the rest's after them.
   */
  lemma DecodeCons(f: string, p: nat, q: nat, e: nat, buf: seq<u8>, idx: nat, idx1: nat, idx': nat, limit: int,
                   g: Guard, render: (string, Value) -> string, text: string, v: Option<Value>,
                   restText: string, restVals: seq<Value>, allText: string, allVals: seq<Value>)
    requires p < |f| && At(f, p) != NUL && idx <= |buf| && q <= |f| && idx1 <= |buf| && e <= |f| && idx' <= |buf|
    requires DecodeStep(f, p, buf, idx, limit, render) == Ok(Piece(text, q, idx1, false, v)) && !Stops(g, idx1)
    requires DecodeFrom(f, q, buf, idx1, limit, g, render)
          == Then(DecodeOut(restText, idx', 0, restVals), DecodeFrom(f, e, buf, idx', limit, g, render))
    requires allText == text + restText && allVals == (if v.Some? then [v.value] else []) + restVals
    ensures DecodeFrom(f, p, buf, idx, limit, g, render)
         == Then(DecodeOut(allText, idx', 0, allVals), DecodeFrom(f, e, buf, idx', limit, g, render))
  {
    ThenAssoc(DecodeOut(text, idx1, 0, if v.Some? then [v.value] else []), DecodeOut(restText, idx', 0, restVals),
      DecodeFrom(f, e, buf, idx', limit, g, render));
  }

  /** What a literal or "%%" prints. */
  function OtherText(t: Token): string
    requires !IsValueToken(t)
  {
    if t.Lit? then [t.c] else ['%']
  }

  /** A literal or "%%" prints its text and reads nothing. */
  lemma DecodeOtherStep(f: string, p: nat, q: nat, t: Token, buf: seq<u8>, idx: nat, limit: int,
                        render: (string, Value) -> string)
    requires WellFormedToken(t) && !IsValueToken(t) && HasAt(f, p, TokenText(t)) && q == p + |TokenText(t)|
    requires idx <= |buf|
    ensures p < |f| && At(f, p) != NUL
    ensures DecodeStep(f, p, buf, idx, limit, render) == Ok(Piece(OtherText(t), q, idx, false, None))
  {
    CharAt(f, p, TokenText(t), 0);
    if t.Conversion? {
      DecodePercentStep(f, p, q, t.spec, buf, idx, limit, render);
    } else {
      DecodeLitStep(f, p, buf, idx, limit, render);
    }
  }

  /** A character other than '%' is copied as it is. */
  lemma DecodeLitStep(f: string, p: nat, buf: seq<u8>, idx: nat, limit: int, render: (string, Value) -> string)
    requires p < |f| && f[p] != '%' && idx <= |buf|
    ensures DecodeStep(f, p, buf, idx, limit, render) == Ok(Piece([f[p]], p + 1, idx, false, None))
  {
  }

  /** "%%" (with flags or width) prints one '%'. */
  lemma DecodePercentStep(f: string, p: nat, e: nat, s: Spec, buf: seq<u8>, idx: nat, limit: int,
                          render: (string, Value) -> string)
    requires WellFormedSpec(s) && IsPercent(s) && HasAt(f, p, SpecText(s)) && e == p + |SpecText(s)| && idx <= |buf|
    ensures p < |f| && DecodeStep(f, p, buf, idx, limit, render) == Ok(Piece(['%'], e, idx, false, None))
  {
    DecodeScanSpec(f, p, e, s);
  }

  // ---------------------------------------------------------------------
  // The round trip
  // ---------------------------------------------------------------------

  /** The values stored for fitting arguments fit the conversions that read them back. */
  lemma {:induction false} ValuesFit(ts: Tokens, args: seq<Arg>)
    requires WellFormed(ts) && ArgsFit(ts, args)
    ensures Fits(ts, Values(ts, args))
    decreases ts
  {
    if ts.Cons? {
      if IsValueToken(ts.head) {
        ValuesFit(ts.tail, args[1..]);
        ValueConsValues(ts, args);
      } else {
        ValuesFit(ts.tail, args);
      }
    }
  }

  /** The first stored value of a value conversion has the kind it reads; the others are the tail's. */
  lemma ValueConsValues(ts: Tokens, args: seq<Arg>)
    requires ts.Cons? && WellFormed(ts) && IsValueToken(ts.head) && ArgsFit(ts, args)
    ensures Values(ts, args) != []
    ensures KindOf(Values(ts, args)[0]) == ConvKind(ts.head.spec)
    ensures Values(ts, args)[0].Text? ==> 0 !in Values(ts, args)[0].bytes
    ensures Values(ts, args)[1..] == Values(ts.tail, args[1..])
  {
    var v := Stored(ConvKind(ts.head.spec), args[0]).value;
    assert Values(ts, args) == [v] + Values(ts.tail, args[1..]);
  }

  /** The format text f spells out exactly the tokens ts. */
  predicate Spells(f: string, ts: Tokens) {
    |f| == |Flatten(ts)| && HasAt(f, 0, Flatten(ts))
  }

  /** A format spells the tokens it is the text of, and only those texts. */
  lemma SpellsFlatten(f: string, ts: Tokens)
    ensures Spells(f, ts) <==> f == Flatten(ts)
  {
    if Spells(f, ts) {
      assert f == f[0..|f|];
    }
  }

  /** Encoding a whole format stores the values of its arguments, in order, and nothing else. */
  lemma Encode(f: string, ts: Tokens, args: seq<Arg>)
    requires WellFormed(ts) && ArgsFit(ts, args) && Spells(f, ts)
    ensures Count(ts) <= |args|
    ensures EncodeFrom(f, 0, false, args) == Ok(Payload(Values(ts, args)))
  {
    EncodeTokens(f, 0, |f|, ts, args);
    assert Payload(Values(ts, args)) + [] == Payload(Values(ts, args));
  }

  /**
   * Decoding a whole format whose values are stored from idx on (and
   * readable below the limit) gives back those values and the text the
   * decoder renders, with no string truncated, and stops at idx', where the
   * last value ends.
   */
  lemma Decode(f: string, ts: Tokens, vals: seq<Value>, buf: seq<u8>, idx: nat, idx': nat, limit: int,
               render: (string, Value) -> string)
    requires WellFormed(ts) && Fits(ts, vals) && |vals| == Count(ts) && Spells(f, ts)
    requires ReadableAt(buf, idx, Payload(vals), limit, Unguarded) && idx' == idx + |Payload(vals)|
    ensures DecodeFrom(f, 0, buf, idx, limit, Unguarded, render) == Ok(DecodeOut(Expected(ts, vals, render), idx', 0, vals))
  {
    DecodeTokens(f, 0, |f|, ts, vals, buf, idx, idx', limit, Unguarded, render);
    DecodeEnd(f, buf, idx, idx', limit, render, Expected(ts, vals, render), vals);
  }

  /** The decoding that reaches the end of the format with nothing left to read. */
  lemma DecodeEnd(f: string, buf: seq<u8>, idx: nat, idx': nat, limit: int, render: (string, Value) -> string,
                  text: string, vals: seq<Value>)
    requires idx <= |buf| && idx' <= |buf|
    requires DecodeFrom(f, 0, buf, idx, limit, Unguarded, render)
          == Then(DecodeOut(text, idx', 0, vals), DecodeFrom(f, |f|, buf, idx', limit, Unguarded, render))
    ensures DecodeFrom(f, 0, buf, idx, limit, Unguarded, render) == Ok(DecodeOut(text, idx', 0, vals))
  {
    assert text + "" == text && vals + [] == vals;
  }

  /**
   * The codec's round trip: the args buffer the encoder fills for a
   * well-formed format decodes, with the same format, to the stored values
   * and the text the decoder renders.
   */
  lemma RoundTrip(f: string, ts: Tokens, args: seq<Arg>, render: (string, Value) -> string)
    requires WellFormed(ts) && ArgsFit(ts, args) && Spells(f, ts)
    requires |Payload(Values(ts, args))| < 0x8000_0000
    ensures EncodeFrom(f, 0, false, args) == Ok(Payload(Values(ts, args)))
    ensures Fits(ts, Values(ts, args))
    ensures DecodeFrom(f, 0, Payload(Values(ts, args)), 0, |Payload(Values(ts, args))|, Unguarded, render)
         == Ok(DecodeOut(Expected(ts, Values(ts, args), render), |Payload(Values(ts, args))|, 0, Values(ts, args)))
  {
    Encode(f, ts, args);
    ValuesFit(ts, args);
    DecodePayload(f, ts, Values(ts, args), render);
  }

  /** Decode, on a buffer holding exactly the stored values. */
  lemma DecodePayload(f: string, ts: Tokens, vals: seq<Value>, render: (string, Value) -> string)
    requires WellFormed(ts) && Fits(ts, vals) && |vals| == Count(ts) && Spells(f, ts)
    requires |Payload(vals)| < 0x8000_0000
    ensures DecodeFrom(f, 0, Payload(vals), 0, |Payload(vals)|, Unguarded, render)
         == Ok(DecodeOut(Expected(ts, vals, render), |Payload(vals)|, 0, vals))
  {
    var payload := Payload(vals);
    assert payload[0..|payload|] == payload;
    Decode(f, ts, vals, payload, 0, |payload|, |payload|, render);
  }
}
