/**
 * What the PackStream model of lib/pack_stream.rb guarantees: the marker
 * table, the header rule, the integer encodings (including the effect of
 * splitting the hexadecimal text from the left), the decoder's dispatch,
 * and the round trip for small values.
 */
module PackStreamProperties {
  import opened PackStream

  // ---------------------------------------------------------------------
  // Marker table
  // ---------------------------------------------------------------------

  /** MARKER_BYTES is exactly the constant part of MARKER_TYPES, inverted. */
  lemma MarkerBytesInvertsMarkerTypes(v: Value, m: byte)
    ensures MarkerBytes(v) == Some(m) <==> MarkerTypes(m) == Some(Constant(v))
  {
  }

  /** nil, false and true are single marker bytes, and decode back consuming one byte. */
  lemma ConstantsRoundTrip(rest: seq<byte>)
    ensures Pack(Null) == Stream([0xC0]) && Decode([0xC0] + rest) == Decoded(Null, rest)
    ensures Pack(Bool(false)) == Stream([0xC2]) && Decode([0xC2] + rest) == Decoded(Bool(false), rest)
    ensures Pack(Bool(true)) == Stream([0xC3]) && Decode([0xC3] + rest) == Decoded(Bool(true), rest)
  {
    ConstantDecoding(0xC0, Null, rest);
    ConstantDecoding(0xC2, Bool(false), rest);
    ConstantDecoding(0xC3, Bool(true), rest);
  }

  /**
   * A marker that MARKER_TYPES maps to an object decodes to that object,
   * consuming only the marker: no such marker is sized, tiny or regular.
   */
  lemma ConstantDecoding(m: byte, v: Value, rest: seq<byte>)
    requires MarkerTypes(m) == Some(Constant(v))
    ensures MarkerTypeAndSize(m) == None
    ensures Decode([m] + rest) == Decoded(v, rest)
  {
    assert ([m] + rest)[1..] == rest;
  }

  // ---------------------------------------------------------------------
  // Composite headers
  // ---------------------------------------------------------------------

  /** The (tiny, regular) marker bases that string, array and hash streams use. */
  predicate CompositeBases(tinyBase: int, regularBase: int)
  {
    (tinyBase == 0x80 && regularBase == 0xD0)
    || (tinyBase == 0x90 && regularBase == 0xD4)
    || (tinyBase == 0xA0 && regularBase == 0xD8)
  }

  /**
   * The header chosen for a composite of `size` bytes or elements, as
   * bytes on the wire: the size follows the sized markers as ONE byte,
   * so after D1/D5/D9 and D2/D6/DA only its low eight bits survive.
   */
  lemma HeaderSelection(tinyBase: int, regularBase: int, size: nat)
    requires CompositeBases(tinyBase, regularBase)
    ensures var h := HeaderBytes(tinyBase, regularBase, size);
      && (size < 0x10 ==> h.Some? && MarkerString(h.value) == [tinyBase + size])
      && (0x10 <= size < 0xFF ==> h.Some? && MarkerString(h.value) == [regularBase, size])
      && (0xFF <= size < 0xFFFF ==> h.Some? && MarkerString(h.value) == [regularBase + 1, size % 256])
      && (0xFFFF <= size < 0xFFFF_FFFF ==> h.Some? && MarkerString(h.value) == [regularBase + 2, size % 256])
      && (0xFFFF_FFFF <= size <==> h.None?)
  {
    if size < 0x10 {
      assert (tinyBase + size) % 256 == tinyBase + size;
      PackArrayOne(tinyBase + size);
    } else if size < 0xFF {
      assert size % 256 == size && regularBase % 256 == regularBase;
      PackArrayTwo(regularBase, size);
    } else if size < 0xFFFF {
      assert (regularBase + 1) % 256 == regularBase + 1;
      PackArrayTwo(regularBase + 1, size);
    } else if size < 0xFFFF_FFFF {
      assert (regularBase + 2) % 256 == regularBase + 2;
      PackArrayTwo(regularBase + 2, size);
    }
  }

  /** A string, array or hash too large for a header makes the packer raise. */
  lemma OversizedCompositesRaise(b: seq<byte>, items: seq<Value>, es: seq<Entry<Value>>)
    ensures |b| >= 0xFFFF_FFFF ==> Pack(Text(b)) == PackError
    ensures |items| >= 0xFFFF_FFFF ==> Pack(List(items)) == PackError
    ensures |es| >= 0xFFFF_FFFF ==> Pack(Map(es)) == PackError
  {
  }

  // ---------------------------------------------------------------------
  // Integer encoding
  // ---------------------------------------------------------------------

  /** Every integer of the tiny range [-15, 128) is the single byte x mod 256. */
  lemma TinyIntEncoding(x: int)
    requires -0x0F <= x < 0x80
    ensures Pack(Int(x)) == Stream([x % 256])
  {
    var c := TinyChunk(x);
    assert LeftPad(c, 1) == c;
    assert PackArray(c) == [x % 256];
    assert IntegerStream(x) == Stream(IntegerBytes(x, 1));
  }

  /** A tiny integer's text is one chunk: itself. */
  lemma TinyChunk(x: int) returns (c: seq<int>)
    requires -0x0F <= x < 0x80
    ensures c == HexChunks(x) == [x]
  {
    if x < 0 {
      assert HexDigits(-x) == [-x];
    } else if x >= 16 {
      var hi, lo := x / 16, x % 16;
      assert HexDigits(hi) == [hi];
      assert HexDigits(x) == [hi, lo];
      assert Pairs([hi, lo]) == [16 * hi + lo];
    }
    c := [x];
  }

  /**
   * The C8 range is -255..-16 (the source's -0xFF...-0x0F). The printed
   * number is "-" and two digits; its first chunk "-d" packs as the byte
   * (-d) mod 256, so -16 becomes C8 FF 00 rather than C8 F0.
   */
  lemma NegativeIntEncoding(x: int)
    requires -0xFF <= x < -0x0F
    ensures Pack(Int(x)) == Stream([0xC8, (-((-x) / 16)) % 256, (-x) % 16])
  {
    var n := -x;
    assert HexDigits(n / 16) == [n / 16];
    assert HexDigits(n) == [n / 16, n % 16];
    assert HexChunks(x) == [-(n / 16), n % 16];
    assert LeftPad(HexChunks(x), 1) == HexChunks(x);
    PackArrayTwo(-(n / 16), n % 16);
    assert (n % 16) % 256 == n % 16;
  }

  /** Integers below -255 or above 2^63-1 have no encoding: `packed_stream` is nil. */
  lemma OutOfRangeIntegers(x: int)
    requires x < -0xFF || x > MaxInt64
    ensures Pack(Int(x)) == NilStream
  {
  }

  /** The marker the source picks for a non-tiny positive integer. */
  function IntMarker(x: int): byte
  {
    if x < 0x8000 then 0xC9 else if x < 0x8000_0000 then 0xCA else 0xCB
  }

  /** The number of payload bytes that marker announces. */
  function IntWidth(x: int): nat
  {
    if x < 0x8000 then 2 else if x < 0x8000_0000 then 4 else 8
  }

  /**
   * Integers from 128 to 2^63-1: marker C9, CA or CB by range, then as
   * many bytes as the marker announces. With an even number of hex digits
   * those bytes are x in big-endian order, left-padded with zeros. With an
   * odd number the last digit becomes a byte of its own, so the bytes
   * spell (x / 16) * 256 + x % 16 instead of x (256 becomes C9 10 00).
   */
  lemma WideIntEncoding(x: int)
    requires 0x80 <= x <= MaxInt64
    ensures Pack(Int(x)).Stream?
    ensures var b := Pack(Int(x)).bytes;
      && |b| == 1 + IntWidth(x)
      && b[0] == IntMarker(x)
      && (|HexDigits(x)| % 2 == 0 ==> UnsignedBE(b[1..]) == x)
      && (|HexDigits(x)| % 2 == 1 ==> UnsignedBE(b[1..]) == (x / 16) * 256 + x % 16)
  {
    var w := IntWidth(x);
    var k := 2 * w;
    assert Pow16(4) == 0x1_0000 && Pow16(8) == 0x1_0000_0000 && Pow16(16) == 0x1_0000_0000_0000_0000;
    HexDigitsFit(x, k);
    IntegerBytesValue(x, w);
    WideIntStream(x);
    var b := [IntMarker(x)] + IntegerBytes(x, w);
    assert b[1..] == IntegerBytes(x, w);
  }

  /** `integer_stream` for a non-tiny positive integer: its marker, then `size` padded bytes. */
  lemma WideIntStream(x: int)
    requires 0x80 <= x <= MaxInt64
    ensures Pack(Int(x)) == Stream([IntMarker(x)] + IntegerBytes(x, IntWidth(x)))
  {
    assert Pack(Int(x)) == IntegerStream(x);
  }

  function Pow16(k: nat): nat
  {
    if k == 0 then 1 else 16 * Pow16(k - 1)
  }

  /** The value of a digit sequence read in base 16. */
  function HexValue(ds: seq<hexDigit>): nat
  {
    if ds == [] then 0 else HexValue(ds[..|ds| - 1]) * 16 + ds[|ds| - 1]
  }

  /** `to_s(16)` prints n: its digits read back in base 16 give n. */
  lemma {:induction false} HexDigitsValue(n: nat)
    ensures HexValue(HexDigits(n)) == n
  {
    if n >= 16 {
      var ds := HexDigits(n);
      assert ds[..|ds| - 1] == HexDigits(n / 16);
      HexDigitsValue(n / 16);
    }
  }

  /** A number below 16^k prints with at most k digits. */
  lemma {:induction false} HexDigitsFit(n: nat, k: nat)
    requires 1 <= k && n < Pow16(k)
    ensures |HexDigits(n)| <= k
  {
    if n >= 16 {
      assert k >= 2;
      assert n / 16 < Pow16(k - 1);
      HexDigitsFit(n / 16, k - 1);
    }
  }

  /** Splitting into pairs from the left: an even-length prefix splits on its own. */
  lemma {:induction false} PairsAppend(a: seq<hexDigit>, b: seq<hexDigit>)
    requires |a| % 2 == 0
    ensures Pairs(a + b) == Pairs(a) + Pairs(b)
    decreases |a|
  {
    if a == [] {
      assert a + b == b;
    } else {
      assert (a + b)[2..] == a[2..] + b;
      PairsAppend(a[2..], b);
    }
  }

  lemma PackArrayAppend(a: seq<int>, b: seq<int>)
    ensures PackArray(a + b) == PackArray(a) + PackArray(b)
  {
    PackArrayBytes(a + b);
    PackArrayBytes(a);
    PackArrayBytes(b);
    assert PackArray(a + b) == PackArray(a) + PackArray(b) by {
      forall i | 0 <= i < |a| + |b|
        ensures PackArray(a + b)[i] == (PackArray(a) + PackArray(b))[i]
      {
      }
    }
  }

  lemma HexValueAppend(a: seq<hexDigit>, d: hexDigit)
    ensures HexValue(a + [d]) == HexValue(a) * 16 + d
  {
    assert (a + [d])[..|a|] == a;
  }

  lemma PackArraySingle(c: int)
    requires 0 <= c < 256
    ensures PackArray([c]) == [c]
  {
  }

  lemma UnsignedBEAppend(p: seq<byte>, c: byte)
    ensures UnsignedBE(p + [c]) == UnsignedBE(p) * 256 + c
  {
    assert (p + [c])[..|p|] == p;
  }

  /** The pairs of an even-length digit sequence are its base-256 digits. */
  lemma {:induction false} EvenPairsValue(ds: seq<hexDigit>)
    requires |ds| % 2 == 0
    ensures UnsignedBE(PackArray(Pairs(ds))) == HexValue(ds)
    decreases |ds|
  {
    if ds != [] {
      var a, hi, lo := ds[..|ds| - 2], ds[|ds| - 2], ds[|ds| - 1];
      EvenLess2(|ds|);
      LastPairValue(ds, a, hi, lo);
      EvenPairsValue(a);
      LastTwoDigits(ds, a, hi, lo);
    }
  }

  lemma EvenLess2(n: nat)
    requires n % 2 == 0 && n >= 2
    ensures (n - 2) % 2 == 0
  {
  }

  /** The last two digits of an even-length sequence become its last byte. */
  lemma LastPairValue(ds: seq<hexDigit>, a: seq<hexDigit>, hi: hexDigit, lo: hexDigit)
    requires ds == a + [hi, lo] && |a| % 2 == 0
    ensures UnsignedBE(PackArray(Pairs(ds))) == UnsignedBE(PackArray(Pairs(a))) * 256 + (16 * hi + lo)
  {
    var c: int := 16 * (hi as int) + (lo as int);
    LastPair(ds, a, hi, lo);
    PackArrayLast(Pairs(a), c);
    UnsignedBEAppend(PackArray(Pairs(a)), c);
  }

  lemma LastPair(ds: seq<hexDigit>, a: seq<hexDigit>, hi: hexDigit, lo: hexDigit)
    requires ds == a + [hi, lo] && |a| % 2 == 0
    ensures Pairs(ds) == Pairs(a) + [16 * hi + lo]
  {
    PairsAppend(a, [hi, lo]);
    assert Pairs([hi, lo]) == [16 * hi + lo];
  }

  lemma PackArrayLast(q: seq<int>, c: int)
    requires 0 <= c < 256
    ensures PackArray(q + [c]) == PackArray(q) + [c]
  {
    PackArrayAppend(q, [c]);
    PackArraySingle(c);
  }

  lemma LastTwoDigits(ds: seq<hexDigit>, a: seq<hexDigit>, hi: hexDigit, lo: hexDigit)
    requires ds == a + [hi, lo]
    ensures HexValue(ds) == HexValue(a) * 256 + (16 * hi + lo)
  {
    assert a + [hi, lo] == (a + [hi]) + [lo];
    HexValueAppend(a + [hi], lo);
    HexValueAppend(a, hi);
  }

  /** An odd-length digit sequence ends in a lone digit, which becomes a byte of its own. */
  lemma OddPairsValue(a: seq<hexDigit>, d: hexDigit)
    requires |a| % 2 == 0
    ensures UnsignedBE(PackArray(Pairs(a + [d]))) == HexValue(a) * 256 + d
  {
    var c: int := d;
    PairsAppend(a, [d]);
    assert Pairs([d]) == [c];
    PackArrayAppend(Pairs(a), [c]);
    PackArraySingle(c);
    var p := PackArray(Pairs(a));
    assert PackArray(Pairs(a + [d])) == p + [c];
    UnsignedBEAppend(p, c);
    EvenPairsValue(a);
  }

  /** Leading zero bytes do not change an unsigned big-endian value. */
  lemma {:induction false} LeadingZero(b: seq<byte>)
    ensures UnsignedBE([0] + b) == UnsignedBE(b)
    decreases |b|
  {
    if b != [] {
      assert ([0] + b)[..|b|] == [0] + b[..|b| - 1];
      LeadingZero(b[..|b| - 1]);
    }
  }

  lemma {:induction false} LeadingZeros(z: nat, b: seq<byte>)
    ensures UnsignedBE(Zeros(z) + b) == UnsignedBE(b)
    decreases z
  {
    if z == 0 {
      assert Zeros(z) + b == b;
    } else {
      assert Zeros(z) + b == [0] + (Zeros(z - 1) + b);
      LeadingZero(Zeros(z - 1) + b);
      LeadingZeros(z - 1, b);
    }
  }

  /** The padded bytes of a non-negative number, and what they spell. */
  lemma IntegerBytesValue(x: nat, w: nat)
    requires |HexDigits(x)| <= 2 * w
    ensures |IntegerBytes(x, w)| == w
    ensures |HexDigits(x)| % 2 == 0 ==> UnsignedBE(IntegerBytes(x, w)) == x
    ensures |HexDigits(x)| % 2 == 1 ==> UnsignedBE(IntegerBytes(x, w)) == (x / 16) * 256 + x % 16
  {
    var p := PackArray(Pairs(HexDigits(x)));
    IntegerBytesPadded(x, w);
    LeadingZeros(w - |p|, p);
    if |HexDigits(x)| % 2 == 0 {
      HexDigitsValue(x);
      EvenPairsValue(HexDigits(x));
    } else {
      OddDigitsValue(x);
    }
  }

  /** The padded bytes of a non-negative number are zeros, then the bytes of its pairs. */
  lemma IntegerBytesPadded(x: nat, w: nat)
    requires |HexDigits(x)| <= 2 * w
    ensures IntegerBytes(x, w) == Zeros(w - |Pairs(HexDigits(x))|) + PackArray(Pairs(HexDigits(x)))
  {
    var q := Pairs(HexDigits(x));
    var z := w - |q|;
    assert HexChunks(x) == q;
    PackArrayAppend(Zeros(z), q);
    PackArrayZeros(z);
  }

  /** With an odd number of digits, the bytes spell x / 16 shifted by a whole byte, plus the last digit. */
  lemma OddDigitsValue(x: nat)
    requires |HexDigits(x)| % 2 == 1
    ensures UnsignedBE(PackArray(Pairs(HexDigits(x)))) == (x / 16) * 256 + x % 16
  {
    var ds := HexDigits(x);
    var a, d := ds[..|ds| - 1], ds[|ds| - 1];
    assert ds == a + [d];
    OddPairsValue(a, d);
    HexValueAppend(a, d);
    HexDigitsValue(x);
    ShiftByByte(x, HexValue(a), d, UnsignedBE(PackArray(Pairs(ds))));
  }

  lemma ShiftByByte(x: nat, h: nat, d: hexDigit, r: int)
    requires x == h * 16 + d && r == h * 256 + d
    ensures r == (x / 16) * 256 + x % 16
  {
    LastDigit(x, h, d);
  }

  lemma PackArrayZeros(z: nat)
    ensures PackArray(Zeros(z)) == Zeros(z)
  {
    var r := PackArray(Zeros(z));
    assert forall i :: 0 <= i < z ==> r[i] == Zeros(z)[i];
  }

  lemma LastDigit(x: nat, h: nat, d: hexDigit)
    requires x == h * 16 + d
    ensures x / 16 == h && x % 16 == d
  {
  }

  // ---------------------------------------------------------------------
  // Arrays and hashes in the encoder
  // ---------------------------------------------------------------------

  /** The byte strings among `ps`, in order: the nils are left out. */
  function Streams(ps: seq<Packed>): seq<seq<byte>>
  {
    if ps == [] then []
    else (if ps[0].Stream? then [ps[0].bytes] else []) + Streams(ps[1..])
  }

  /** The byte strings of `bs`, one after another. */
  function Concat(bs: seq<seq<byte>>): seq<byte>
  {
    if bs == [] then [] else bs[0] + Concat(bs[1..])
  }

  /**
   * Without a raised exception, the join of packed elements is the
   * concatenation of their byte strings, and there are as many of those
   * as elements that did not pack to nil.
   */
  lemma JoinStreams(ps: seq<Packed>)
    requires PackError !in ps
    ensures JoinPacked(ps) == Stream(Concat(Streams(ps)))
    ensures |Streams(ps)| + multiset(ps)[NilStream] == |ps|
  {
    JoinConcatenates(ps);
    StreamsCount(ps);
  }

  lemma {:induction false} JoinConcatenates(ps: seq<Packed>)
    requires PackError !in ps
    ensures JoinPacked(ps) == Stream(Concat(Streams(ps)))
    decreases |ps|
  {
    if ps != [] {
      assert ps[0] in ps;
      assert forall p :: p in ps[1..] ==> p in ps;
      JoinConcatenates(ps[1..]);
      if ps[0].Stream? {
        ConcatCons(ps[0].bytes, Streams(ps[1..]));
      } else {
        assert [] + Streams(ps[1..]) == Streams(ps[1..]);
        assert [] + Concat(Streams(ps[1..])) == Concat(Streams(ps[1..]));
      }
    }
  }

  lemma ConcatCons(b: seq<byte>, bs: seq<seq<byte>>)
    ensures Concat([b] + bs) == b + Concat(bs)
  {
    assert ([b] + bs)[1..] == bs;
  }

  lemma {:induction false} StreamsCount(ps: seq<Packed>)
    requires PackError !in ps
    ensures |Streams(ps)| + multiset(ps)[NilStream] == |ps|
    decreases |ps|
  {
    if ps != [] {
      assert ps == [ps[0]] + ps[1..];
      assert multiset(ps) == multiset([ps[0]]) + multiset(ps[1..]);
      assert forall p :: p in ps[1..] ==> p in ps;
      StreamsCount(ps[1..]);
    }
  }

  /**
   * The header of an array counts every element, but its body holds the
   * streams of only the elements that did not pack to nil; an element
   * that raises makes the whole array raise.
   */
  lemma NilElementsVanish(items: seq<Value>)
    requires |items| < 0xFFFF_FFFF
    ensures PackError in PackItems(items) ==> Pack(List(items)) == PackError
    ensures PackError !in PackItems(items) ==>
      var ps := PackItems(items);
      && Pack(List(items)) == Stream(MarkerString(HeaderBytes(0x90, 0xD4, |items|).value) + Concat(Streams(ps)))
      && |Streams(ps)| + multiset(ps)[NilStream] == |items|
  {
    JoinPackedRaises(PackItems(items));
    if PackError !in PackItems(items) {
      JoinStreams(PackItems(items));
    }
  }

  /** An unsupported object in front of a tiny integer: the header says two, the body holds one byte. */
  lemma UnsupportedThenTinyInt(x: int)
    requires 0 <= x < 0x80
    ensures Pack(List([Unsupported, Int(x)])) == Stream([0x92, x])
  {
    var items := [Unsupported, Int(x)];
    TinyIntEncoding(x);
    assert x % 256 == x;
    TwoPackedItems(Unsupported, Int(x));
    NilThenStream([x]);
    var h := SmallHeaderIsHeader(0x90, 0xD4, |items|);
    ArrayStreamWithHeader(items, h);
    assert [0x92] + [x] == [0x92, x];
  }

  lemma TwoPackedItems(a: Value, b: Value)
    ensures PackItems([a, b]) == [Pack(a), Pack(b)]
  {
    assert [a, b][1..] == [b] && [b][1..] == [];
  }

  lemma NilThenStream(b: seq<byte>)
    ensures JoinPacked([NilStream, Stream(b)]) == Stream(b)
  {
    var ps := [NilStream, Stream(b)];
    assert ps[1..] == [Stream(b)] && ps[1..][1..] == [];
    assert b + [] == b && [] + b == b;
    assert JoinPacked(ps[1..]) == Stream(b);
  }

  /** An array under 16 elements that all pack to nil is its header byte alone. */
  lemma {:induction false} ArrayOfNilsIsHeaderOnly(items: seq<Value>)
    requires |items| < 0x10
    requires forall i :: 0 <= i < |items| ==> Pack(items[i]) == NilStream
    ensures Pack(List(items)) == Stream([0x90 + |items|])
  {
    PackItemsElements(items);
    NilsJoinToNothing(PackItems(items));
    var h := SmallHeaderIsHeader(0x90, 0xD4, |items|);
    ArrayStreamWithHeader(items, h);
    assert MarkerString(h) + [] == [0x90 + |items|];
  }

  lemma {:induction false} NilsJoinToNothing(ps: seq<Packed>)
    requires forall i :: 0 <= i < |ps| ==> ps[i] == NilStream
    ensures JoinPacked(ps) == Stream([])
  {
    if ps != [] {
      NilsJoinToNothing(ps[1..]);
    }
  }

  /** A hash whose key or value packs to nil makes the packer raise. */
  lemma HashWithNilRaises(es: seq<Entry<Value>>, i: nat)
    requires i < |es| && |es| < 0xFFFF_FFFF
    requires Pack(es[i].key) == NilStream || Pack(es[i].val) == NilStream
    ensures Pack(Map(es)) == PackError
  {
    PackEntriesElements(es);
    assert PackEntries(es)[i] == PackError;
    JoinPackedRaises(PackEntries(es));
  }

  // ---------------------------------------------------------------------
  // Decoder dispatch
  // ---------------------------------------------------------------------

  /**
   * A marker outside MARKER_TYPES and outside 0x80-0xAF is its own
   * unsigned value (0x00-0x7F, but also 0xB0-0xBF, 0xF0-0xFF, ...).
   */
  lemma FallbackMarkerDecoding(m: byte, rest: seq<byte>)
    requires MarkerTypes(m).None? && !(0x80 <= m <= 0xAF)
    ensures Decode([m] + rest) == Decoded(Int(m), rest)
  {
    assert ([m] + rest)[1..] == rest;
  }

  /** A marker with a [type, size] entry, other than the sized text, list and map ones. */
  lemma DecodeWithoutSizeByte(m: byte, rest: seq<byte>, kind: Kind, size: nat)
    requires MarkerTypeAndSize(m) == Some((kind, size))
    requires kind != TextKind && kind != ListKind && kind != MapKind
    ensures Decode([m] + rest) == ValueForType(kind, size, rest)
  {
    assert ([m] + rest)[1..] == rest;
  }

  /** A sized text, list or map marker: the next byte is the size. */
  lemma DecodeWithSizeByte(m: byte, size: byte, rest: seq<byte>, kind: Kind)
    requires MarkerTypeAndSize(m).Some? && MarkerTypeAndSize(m).value.0 == kind
    requires kind == TextKind || kind == ListKind || kind == MapKind
    ensures Decode([m, size] + rest) == ValueForType(kind, size, rest)
  {
    assert ([m, size] + rest)[1..] == [size] + rest;
    assert ([size] + rest)[1..] == rest;
  }

  /** The bit width that the integer markers C8-CB carry in MARKER_TYPES. */
  function IntMarkerBits(m: int): nat
  {
    if m == 0xC8 then 8 else if m == 0xC9 then 16 else if m == 0xCA then 32 else 64
  }

  /**
   * After C8, C9, CA or CB the decoder reads 8, 16, 32 or 64 bytes (the
   * bit width taken as a byte count), fewer if the stream ends first, as
   * an unsigned big-endian number; at the end of the stream it raises.
   */
  lemma IntMarkerDecoding(m: byte, rest: seq<byte>)
    requires 0xC8 <= m <= 0xCB
    ensures rest == [] ==> Decode([m] + rest) == Exhausted
    ensures rest != [] ==>
      var k := if IntMarkerBits(m) < |rest| then IntMarkerBits(m) else |rest|;
      Decode([m] + rest) == Decoded(Int(UnsignedBE(rest[..k])), rest[k..])
  {
    var bits := IntMarkerKind(m);
    DecodeWithoutSizeByte(m, rest, IntKind, bits);
    IntOfWidth(bits, rest);
  }

  lemma IntMarkerKind(m: byte) returns (bits: nat)
    requires 0xC8 <= m <= 0xCB
    ensures bits == IntMarkerBits(m) && MarkerTypeAndSize(m) == Some((IntKind, bits))
  {
    bits := IntMarkerBits(m);
    assert MarkerTypes(m) == Some(Sized(IntKind, bits));
  }

  lemma IntOfWidth(bits: nat, rest: seq<byte>)
    requires bits > 0
    ensures rest == [] ==> ValueForType(IntKind, bits, rest) == Exhausted
    ensures rest != [] ==>
      var k := if bits < |rest| then bits else |rest|;
      ValueForType(IntKind, bits, rest) == Decoded(Int(UnsignedBE(rest[..k])), rest[k..])
  {
  }

  /** The bytes markers CC-CE read up to 8, 16 or 32 bytes, with no size field. */
  lemma BytesMarkerDecoding(m: byte, rest: seq<byte>)
    requires 0xCC <= m <= 0xCE
    ensures var n := if m == 0xCC then 8 else if m == 0xCD then 16 else 32;
      Decode([m] + rest) == TextOfSize(n, rest)
  {
    var n := if m == 0xCC then 8 else if m == 0xCD then 16 else 32;
    assert MarkerTypeAndSize(m) == Some((BytesKind, n));
    DecodeWithoutSizeByte(m, rest, BytesKind, n);
  }

  /** The float marker and the struct markers decode to nil and consume only the marker. */
  lemma FloatAndStructDecodeToNil(m: byte, rest: seq<byte>)
    requires m == 0xC1 || 0xDC <= m <= 0xDE
    ensures Decode([m] + rest) == Decoded(Null, rest)
  {
    var kind := if m == 0xC1 then FloatKind else StructKind;
    var size := MarkerTypeAndSize(m).value.1;
    assert MarkerTypeAndSize(m) == Some((kind, size));
    DecodeWithoutSizeByte(m, rest, kind, size);
  }

  /**
   * Tiny composites 0x80-0xAF take their size from the low nibble:
   * text reads that many bytes, a list that many values, a map that many
   * key/value pairs.
   */
  lemma TinyCompositeDecoding(m: byte, rest: seq<byte>)
    requires 0x80 <= m <= 0xAF
    ensures var n := m % 16;
      && (m <= 0x8F ==> Decode([m] + rest) == TextOfSize(n, rest))
      && (0x90 <= m <= 0x9F ==> Decode([m] + rest) == ValueForList(rest, n, []))
      && (0xA0 <= m ==> Decode([m] + rest) == ValueForMap(rest, n, []))
  {
    var kind, n := TinyMarkerKind(m);
    DecodeWithoutSizeByte(m, rest, kind, n);
  }

  lemma TinyMarkerKind(m: byte) returns (kind: Kind, n: nat)
    requires 0x80 <= m <= 0xAF
    ensures kind == if m <= 0x8F then TinyTextKind else if m <= 0x9F then TinyListKind else TinyMapKind
    ensures n == m % 16 && MarkerTypeAndSize(m) == Some((kind, n))
  {
    kind := if m <= 0x8F then TinyTextKind else if m <= 0x9F then TinyListKind else TinyMapKind;
    n := m % 16;
  }

  /** A text of `n` bytes read from `rest`: short at the end, an error on an empty stream. */
  function TextOfSize(n: nat, rest: seq<byte>): Decoded<Value>
  {
    if n == 0 then Decoded(Text([]), rest)
    else if rest == [] then Exhausted
    else
      var k := if n < |rest| then n else |rest|;
      Decoded(Text(rest[..k]), rest[k..])
  }

  /**
   * The sized text, list and map markers (D0-D2, D4-D6, D8-DA) read ONE
   * size byte whatever width they announce.
   */
  lemma SizedCompositeDecoding(m: byte, size: byte, rest: seq<byte>)
    requires 0xD0 <= m <= 0xDA && m % 4 != 3
    ensures m <= 0xD2 ==> Decode([m, size] + rest) == TextOfSize(size, rest)
    ensures 0xD4 <= m <= 0xD6 ==> Decode([m, size] + rest) == ValueForList(rest, size, [])
    ensures 0xD8 <= m ==> Decode([m, size] + rest) == ValueForMap(rest, size, [])
  {
    var kind := SizedMarkerKind(m);
    DecodeWithSizeByte(m, size, rest, kind);
  }

  lemma SizedMarkerKind(m: byte) returns (kind: Kind)
    requires 0xD0 <= m <= 0xDA && m % 4 != 3
    ensures kind == if m <= 0xD2 then TextKind else if m <= 0xD6 then ListKind else MapKind
    ensures MarkerTypeAndSize(m).Some? && MarkerTypeAndSize(m).value.0 == kind
  {
    kind := if m <= 0xD2 then TextKind else if m <= 0xD6 then ListKind else MapKind;
  }

  // ---------------------------------------------------------------------
  // Round trip
  // ---------------------------------------------------------------------

  /**
   * The values on which decoding undoes encoding: nil, booleans, integers
   * 0..127, texts of at most 255 bytes, and lists and hashes (with
   * distinct keys) of at most 255 such elements. Sizes of 256 and more
   * fail because the size byte keeps only the low eight bits; wider
   * integers fail because the decoder reads the marker's bit width as a
   * byte count.
   */
  predicate Small(v: Value)
    decreases v
  {
    match v
    case Null => true
    case Bool(_) => true
    case Int(x) => 0 <= x < 0x80
    case Text(b) => |b| <= 0xFF
    case List(items) => |items| <= 0xFF && forall i :: 0 <= i < |items| ==> Small(items[i])
    case Map(es) => |es| <= 0xFF && DistinctKeys(es) && forall i :: 0 <= i < |es| ==> SmallEntry(es[i])
    case Unsupported => false
  }

  predicate SmallEntry(e: Entry<Value>)
    decreases e
  {
    Small(e.key) && Small(e.val)
  }

  /** The header of a composite of at most 255 elements, as bytes. */
  function SmallHeader(tinyBase: int, regularBase: int, n: nat): (h: seq<byte>)
    requires CompositeBases(tinyBase, regularBase) && n <= 0xFF
  {
    if n < 0x10 then [tinyBase + n]
    else if n < 0xFF then [regularBase, n]
    else [regularBase + 1, n]
  }

  lemma SmallHeaderIsHeader(tinyBase: int, regularBase: int, n: nat) returns (h: seq<int>)
    requires CompositeBases(tinyBase, regularBase) && n <= 0xFF
    ensures HeaderBytes(tinyBase, regularBase, n) == Some(h)
    ensures MarkerString(h) == SmallHeader(tinyBase, regularBase, n)
  {
    HeaderSelection(tinyBase, regularBase, n);
    h := HeaderBytes(tinyBase, regularBase, n).value;
  }

  /** The decoder dispatches on a header to the composite of that size. */
  lemma DecodeSmallHeader(tinyBase: int, regularBase: int, n: nat, body: seq<byte>)
    requires CompositeBases(tinyBase, regularBase) && n <= 0xFF
    ensures tinyBase == 0x80 ==> Decode(SmallHeader(tinyBase, regularBase, n) + body) == TextOfSize(n, body)
    ensures tinyBase == 0x90 ==> Decode(SmallHeader(tinyBase, regularBase, n) + body) == ValueForList(body, n, [])
    ensures tinyBase == 0xA0 ==> Decode(SmallHeader(tinyBase, regularBase, n) + body) == ValueForMap(body, n, [])
  {
    if n < 0x10 {
      var m := tinyBase + n;
      assert m % 16 == n;
      TinyCompositeDecoding(m, body);
      assert SmallHeader(tinyBase, regularBase, n) == [m];
    } else {
      var m := if n < 0xFF then regularBase else regularBase + 1;
      SizedCompositeDecoding(m, n, body);
      assert SmallHeader(tinyBase, regularBase, n) + body == [m, n] + body;
    }
  }

  lemma TextOfSizeExact(b: seq<byte>, rest: seq<byte>)
    ensures TextOfSize(|b|, b + rest) == Decoded(Text(b), rest)
  {
    assert (b + rest)[..|b|] == b && (b + rest)[|b|..] == rest;
  }

  /** The stream of a joined sequence whose first element and remainder are streams. */
  lemma JoinFirst(ps: seq<Packed>)
    requires ps != [] && ps[0].Stream? && JoinPacked(ps[1..]).Stream?
    ensures JoinPacked(ps) == Stream(ps[0].bytes + JoinPacked(ps[1..]).bytes)
  {
  }

  lemma PackItemsFirst(items: seq<Value>)
    requires items != []
    ensures PackItems(items)[0] == Pack(items[0]) && PackItems(items)[1..] == PackItems(items[1..])
  {
  }

  lemma PackEntriesFirst(es: seq<Entry<Value>>)
    requires es != []
    ensures PackEntries(es)[0] == PackEntry(es[0]) && PackEntries(es)[1..] == PackEntries(es[1..])
  {
  }

  /** Decoding the encoding gives back the value and consumes exactly the encoded bytes. */
  lemma {:induction false} RoundTrip(v: Value, rest: seq<byte>)
    requires Small(v)
    ensures Pack(v).Stream?
    ensures Decode(Pack(v).bytes + rest) == Decoded(v, rest)
    decreases v
  {
    match v
    case Null => ConstantsRoundTrip(rest);
    case Bool(_) => ConstantsRoundTrip(rest);
    case Int(x) => TinyIntRoundTrip(x, rest);
    case Text(b) => TextRoundTrip(b, rest);
    case List(items) =>
      ListRoundTrip(items, [], rest);
      ListHeaderRoundTrip(items, rest);
    case Map(es) =>
      MapRoundTrip(es, [], rest);
      MapHeaderRoundTrip(es, rest);
  }

  lemma TinyIntRoundTrip(x: int, rest: seq<byte>)
    requires 0 <= x < 0x80
    ensures Pack(Int(x)) == Stream([x])
    ensures Decode([x] + rest) == Decoded(Int(x), rest)
  {
    assert x % 256 == x;
    TinyIntEncoding(x);
    FallbackMarkerDecoding(x, rest);
  }

  lemma TextRoundTrip(b: seq<byte>, rest: seq<byte>)
    requires |b| <= 0xFF
    ensures Pack(Text(b)).Stream?
    ensures Decode(Pack(Text(b)).bytes + rest) == Decoded(Text(b), rest)
  {
    var h := SmallHeader(0x80, 0xD0, |b|);
    Concat3(h, b, rest);
    var hb := SmallHeaderIsHeader(0x80, 0xD0, |b|);
    assert Pack(Text(b)) == Stream(h + b);
    DecodeSmallHeader(0x80, 0xD0, |b|, b + rest);
    TextOfSizeExact(b, rest);
  }

  lemma ArrayStreamWithHeader(items: seq<Value>, h: seq<int>)
    requires HeaderBytes(0x90, 0xD4, |items|) == Some(h) && JoinPacked(PackItems(items)).Stream?
    ensures Pack(List(items)) == Stream(MarkerString(h) + JoinPacked(PackItems(items)).bytes)
  {
    PackList(items);
    ArrayStreamParts(items, h, JoinPacked(PackItems(items)).bytes);
  }

  lemma HashStreamWithHeader(es: seq<Entry<Value>>, h: seq<int>)
    requires HeaderBytes(0xA0, 0xD8, |es|) == Some(h) && JoinPacked(PackEntries(es)).Stream?
    ensures Pack(Map(es)) == Stream(MarkerString(h) + JoinPacked(PackEntries(es)).bytes)
  {
    PackMap(es);
    HashStreamParts(es, h, JoinPacked(PackEntries(es)).bytes);
  }

  lemma PackList(items: seq<Value>)
    ensures Pack(List(items)) == ArrayStream(items)
  {
  }

  lemma PackMap(es: seq<Entry<Value>>)
    ensures Pack(Map(es)) == HashStream(es)
  {
  }

  lemma ArrayStreamParts(items: seq<Value>, h: seq<int>, body: seq<byte>)
    requires HeaderBytes(0x90, 0xD4, |items|) == Some(h) && JoinPacked(PackItems(items)) == Stream(body)
    ensures ArrayStream(items) == Stream(MarkerString(h) + body)
  {
  }

  lemma HashStreamParts(es: seq<Entry<Value>>, h: seq<int>, body: seq<byte>)
    requires HeaderBytes(0xA0, 0xD8, |es|) == Some(h) && JoinPacked(PackEntries(es)) == Stream(body)
    ensures HashStream(es) == Stream(MarkerString(h) + body)
  {
  }

  lemma SmallArrayStream(items: seq<Value>, h: seq<int>)
    requires |items| <= 0xFF && JoinPacked(PackItems(items)).Stream?
    requires HeaderBytes(0x90, 0xD4, |items|) == Some(h)
    requires MarkerString(h) == SmallHeader(0x90, 0xD4, |items|)
    ensures Pack(List(items)) == Stream(SmallHeader(0x90, 0xD4, |items|) + JoinPacked(PackItems(items)).bytes)
  {
    ArrayStreamWithHeader(items, h);
  }

  lemma SmallHashStream(es: seq<Entry<Value>>, h: seq<int>)
    requires |es| <= 0xFF && JoinPacked(PackEntries(es)).Stream?
    requires HeaderBytes(0xA0, 0xD8, |es|) == Some(h)
    requires MarkerString(h) == SmallHeader(0xA0, 0xD8, |es|)
    ensures Pack(Map(es)) == Stream(SmallHeader(0xA0, 0xD8, |es|) + JoinPacked(PackEntries(es)).bytes)
  {
    HashStreamWithHeader(es, h);
  }

  /** A list's header in front of its elements' round trip. */
  lemma ListHeaderRoundTrip(items: seq<Value>, rest: seq<byte>)
    requires |items| <= 0xFF
    requires JoinPacked(PackItems(items)).Stream?
    requires ValueForList(JoinPacked(PackItems(items)).bytes + rest, |items|, []) == Decoded(List([] + items), rest)
    ensures Pack(List(items)).Stream?
    ensures Decode(Pack(List(items)).bytes + rest) == Decoded(List(items), rest)
  {
    EmptyPrefix(items);
    var h := SmallHeader(0x90, 0xD4, |items|);
    var body := JoinPacked(PackItems(items)).bytes;
    Concat3(h, body, rest);
    var hb := SmallHeaderIsHeader(0x90, 0xD4, |items|);
    SmallArrayStream(items, hb);
    DecodeSmallHeader(0x90, 0xD4, |items|, body + rest);
  }

  /** A hash's header in front of its pairs' round trip. */
  lemma MapHeaderRoundTrip(es: seq<Entry<Value>>, rest: seq<byte>)
    requires |es| <= 0xFF
    requires JoinPacked(PackEntries(es)).Stream?
    requires ValueForMap(JoinPacked(PackEntries(es)).bytes + rest, |es|, []) == Decoded(Map([] + es), rest)
    ensures Pack(Map(es)).Stream?
    ensures Decode(Pack(Map(es)).bytes + rest) == Decoded(Map(es), rest)
  {
    EmptyPrefix(es);
    var h := SmallHeader(0xA0, 0xD8, |es|);
    var body := JoinPacked(PackEntries(es)).bytes;
    Concat3(h, body, rest);
    var hb := SmallHeaderIsHeader(0xA0, 0xD8, |es|);
    SmallHashStream(es, hb);
    DecodeSmallHeader(0xA0, 0xD8, |es|, body + rest);
  }

  // ---------------------------------------------------------------------
  // Lists and hashes in the decoder
  // ---------------------------------------------------------------------

  /** `s` holds the encodings of `vs`, one after another, and `t` follows them. */
  predicate Encodes(s: seq<byte>, vs: seq<Value>, t: seq<byte>)
    decreases |vs|
  {
    if vs == [] then s == t
    else
      match Decode(s)
      case Exhausted => false
      case Decoded(v, u) => v == vs[0] && Encodes(u, vs[1..], t)
  }

  /** `s` holds the encodings of the pairs of `ps`, each key before its value, and `t` follows them. */
  predicate EncodesPairs(s: seq<byte>, ps: seq<Entry<Value>>, t: seq<byte>)
    decreases |ps|
  {
    if ps == [] then s == t
    else
      match Decode(s)
      case Exhausted => false
      case Decoded(k, u) =>
        match Decode(u)
        case Exhausted => false
        case Decoded(v, w) => k == ps[0].key && v == ps[0].val && EncodesPairs(w, ps[1..], t)
  }

  lemma EncodesFirst(s: seq<byte>, vs: seq<Value>, t: seq<byte>)
    requires vs != [] && Encodes(s, vs, t)
    ensures Decode(s) == Decoded(vs[0], Decode(s).rest) && Encodes(Decode(s).rest, vs[1..], t)
  {
  }

  lemma EncodesPairsFirst(s: seq<byte>, ps: seq<Entry<Value>>, t: seq<byte>)
    requires ps != [] && EncodesPairs(s, ps, t)
    ensures Decode(s) == Decoded(ps[0].key, Decode(s).rest)
    ensures Decode(Decode(s).rest) == Decoded(ps[0].val, Decode(Decode(s).rest).rest)
    ensures EncodesPairs(Decode(Decode(s).rest).rest, ps[1..], t)
  {
  }

  /** The pairs of `ps` stored into `acc` with `Hash#[]=`, in order. */
  function PutAll(acc: seq<Entry<Value>>, ps: seq<Entry<Value>>): seq<Entry<Value>>
    decreases |ps|
  {
    if ps == [] then acc else PutAll(Put(acc, ps[0].key, ps[0].val), ps[1..])
  }

  lemma {:induction false} ListDecodingShape(s: seq<byte>, n: nat, acc: seq<Value>)
    ensures ValueForList(s, n, acc).Decoded? ==>
      var r := ValueForList(s, n, acc).value;
      r.List? && |r.items| == |acc| + n && r.items[..|acc|] == acc
    decreases n
  {
    if n == 0 {
      assert acc[..|acc|] == acc;
    } else if Decode(s).Decoded? {
      var v, u := Decode(s).value, Decode(s).rest;
      ListDecodingShape(u, n - 1, acc + [v]);
      ListDecodingStep(s, u, n, n - 1, acc, acc + [v], v);
      if ValueForList(s, n, acc).Decoded? {
        var xs := ValueForList(s, n, acc).value.items;
        assert xs[..|acc|] == xs[..|acc| + 1][..|acc|];
        assert (acc + [v])[..|acc|] == acc;
      }
    }
  }

  /**
   * A list of `n` elements decodes to `vs`, appended to what was read
   * before, with `t` left over, exactly when the stream holds the
   * encodings of `n` values `vs` followed by `t`.
   */
  lemma ListDecoding(s: seq<byte>, n: nat, acc: seq<Value>, vs: seq<Value>, t: seq<byte>)
    ensures ValueForList(s, n, acc) == Decoded(List(acc + vs), t) <==> |vs| == n && Encodes(s, vs, t)
  {
    if |vs| == n && Encodes(s, vs, t) {
      ListDecodingReads(s, n, acc, vs, t);
    }
    if ValueForList(s, n, acc) == Decoded(List(acc + vs), t) {
      ListDecodingSplits(s, n, acc, vs, t);
    }
  }

  lemma {:induction false} ListDecodingReads(s: seq<byte>, n: nat, acc: seq<Value>, vs: seq<Value>, t: seq<byte>)
    requires |vs| == n && Encodes(s, vs, t)
    ensures ValueForList(s, n, acc) == Decoded(List(acc + vs), t)
    decreases n
  {
    if n == 0 {
      assert acc + vs == acc;
    } else {
      EncodesFirst(s, vs, t);
      var u := Decode(s).rest;
      ListDecodingStep(s, u, n, n - 1, acc, acc + [vs[0]], vs[0]);
      ListDecodingReads(u, n - 1, acc + [vs[0]], vs[1..], t);
      MoveFirst(acc, vs);
    }
  }

  lemma {:induction false} ListDecodingSplits(s: seq<byte>, n: nat, acc: seq<Value>, vs: seq<Value>, t: seq<byte>)
    requires ValueForList(s, n, acc) == Decoded(List(acc + vs), t)
    ensures |vs| == n && Encodes(s, vs, t)
    decreases n
  {
    if n == 0 {
      assert |acc + vs| == |acc|;
    } else {
      if Decode(s).Exhausted? {
        ListDecodingExhausted(s, n, acc);
        assert false;
      }
      var v, u := Decode(s).value, Decode(s).rest;
      ListDecodingStep(s, u, n, n - 1, acc, acc + [v], v);
      ListDecodingShape(u, n - 1, acc + [v]);
      var xs := acc + vs;
      assert xs[..|acc| + 1][|acc|] == (acc + [v])[|acc|];
      MoveFirst(acc, vs);
      ListDecodingSplits(u, n - 1, acc + [v], vs[1..], t);
    }
  }

  /** Reading a list of `n` elements raises exactly when the stream does not hold `n` encoded values. */
  lemma ListDecodingFails(s: seq<byte>, n: nat, acc: seq<Value>)
    ensures ValueForList(s, n, acc).Exhausted? <==> forall vs, t :: !(|vs| == n && Encodes(s, vs, t))
  {
    if ValueForList(s, n, acc).Decoded? {
      ListDecodingShape(s, n, acc);
      var xs, t := ValueForList(s, n, acc).value.items, ValueForList(s, n, acc).rest;
      var vs := xs[|acc|..];
      assert xs == acc + vs;
      ListDecoding(s, n, acc, vs, t);
      assert |vs| == n && Encodes(s, vs, t);
    } else {
      forall vs, t
        ensures !(|vs| == n && Encodes(s, vs, t))
      {
        ListDecoding(s, n, acc, vs, t);
      }
    }
  }

  /**
   * A hash of `n` pairs, read from a stream that holds the encodings of
   * `n` pairs `ps` followed by `t`, stores those pairs in order with
   * `Hash#[]=` and leaves `t`.
   */
  lemma {:induction false} MapDecoding(s: seq<byte>, n: nat, acc: seq<Entry<Value>>, ps: seq<Entry<Value>>, t: seq<byte>)
    requires |ps| == n && EncodesPairs(s, ps, t)
    ensures ValueForMap(s, n, acc) == Decoded(Map(PutAll(acc, ps)), t)
    decreases n
  {
    if n > 0 {
      EncodesPairsFirst(s, ps, t);
      var u := Decode(s).rest;
      var w := Decode(u).rest;
      var acc' := Put(acc, ps[0].key, ps[0].val);
      MapDecodingStep(s, u, w, n, n - 1, acc, acc', ps[0].key, ps[0].val);
      MapDecoding(w, n - 1, acc', ps[1..], t);
    }
  }

  lemma EncodesPairsCons(s: seq<byte>, k: Value, v: Value, qs: seq<Entry<Value>>, t: seq<byte>)
    requires Decode(s).Decoded? && Decode(s).value == k
    requires Decode(Decode(s).rest).Decoded? && Decode(Decode(s).rest).value == v
    requires EncodesPairs(Decode(Decode(s).rest).rest, qs, t)
    ensures EncodesPairs(s, [Entry(k, v)] + qs, t)
  {
    assert ([Entry(k, v)] + qs)[1..] == qs;
  }

  lemma PutAllCons(acc: seq<Entry<Value>>, e: Entry<Value>, qs: seq<Entry<Value>>)
    ensures PutAll(acc, [e] + qs) == PutAll(Put(acc, e.key, e.val), qs)
  {
    assert ([e] + qs)[1..] == qs;
  }

  lemma {:induction false} MapPairs(s: seq<byte>, n: nat, acc: seq<Entry<Value>>) returns (ps: seq<Entry<Value>>)
    requires ValueForMap(s, n, acc).Decoded?
    ensures |ps| == n && EncodesPairs(s, ps, ValueForMap(s, n, acc).rest)
    ensures ValueForMap(s, n, acc).value == Map(PutAll(acc, ps))
    decreases n
  {
    if n == 0 {
      ps := [];
    } else {
      if Decode(s).Exhausted? || Decode(Decode(s).rest).Exhausted? {
        MapDecodingExhausted(s, n, acc);
        assert false;
      }
      var k, u := Decode(s).value, Decode(s).rest;
      var v, w := Decode(u).value, Decode(u).rest;
      var acc' := Put(acc, k, v);
      MapDecodingStep(s, u, w, n, n - 1, acc, acc', k, v);
      var qs := MapPairs(w, n - 1, acc');
      ps := [Entry(k, v)] + qs;
      EncodesPairsCons(s, k, v, qs, ValueForMap(s, n, acc).rest);
      PutAllCons(acc, Entry(k, v), qs);
    }
  }

  /**
   * A hash that decodes consists of `n` encoded pairs, stored in order:
   * its value is those pairs put into the hash one after another.
   */
  lemma MapDecodingSplits(s: seq<byte>, n: nat, acc: seq<Entry<Value>>)
    ensures ValueForMap(s, n, acc).Decoded? ==>
      exists ps :: |ps| == n && EncodesPairs(s, ps, ValueForMap(s, n, acc).rest)
                   && ValueForMap(s, n, acc).value == Map(PutAll(acc, ps))
  {
    if ValueForMap(s, n, acc).Decoded? {
      var ps := MapPairs(s, n, acc);
    }
  }

  /** Reading a hash of `n` pairs raises exactly when the stream does not hold `n` encoded pairs. */
  lemma MapDecodingFails(s: seq<byte>, n: nat, acc: seq<Entry<Value>>)
    ensures ValueForMap(s, n, acc).Exhausted? ==> forall ps, t :: !(|ps| == n && EncodesPairs(s, ps, t))
    ensures (forall ps, t :: !(|ps| == n && EncodesPairs(s, ps, t))) ==> ValueForMap(s, n, acc).Exhausted?
  {
    if ValueForMap(s, n, acc).Decoded? {
      var ps := MapPairs(s, n, acc);
      var t := ValueForMap(s, n, acc).rest;
      assert |ps| == n && EncodesPairs(s, ps, t);
    } else {
      forall ps, t
        ensures !(|ps| == n && EncodesPairs(s, ps, t))
      {
        if |ps| == n && EncodesPairs(s, ps, t) {
          MapDecoding(s, n, acc, ps, t);
        }
      }
    }
  }

  lemma {:induction false} ListRoundTrip(items: seq<Value>, acc: seq<Value>, rest: seq<byte>)
    requires forall i :: 0 <= i < |items| ==> Small(items[i])
    ensures JoinPacked(PackItems(items)).Stream?
    ensures ValueForList(JoinPacked(PackItems(items)).bytes + rest, |items|, acc)
         == Decoded(List(acc + items), rest)
    decreases items
  {
    if items == [] {
      assert acc + items == acc;
    } else {
      ListRoundTrip(items[1..], acc + [items[0]], rest);
      var j := JoinPacked(PackItems(items[1..])).bytes;
      RoundTrip(items[0], j + rest);
      ListRoundTripStep(items, acc, j, rest);
    }
  }

  lemma MoveFirst<T>(acc: seq<T>, items: seq<T>)
    requires items != []
    ensures acc + [items[0]] + items[1..] == acc + items
  {
    assert items == [items[0]] + items[1..];
  }

  /** One element of a list's round trip: the first element, then the rest of the list. */
  lemma ListRoundTripStep(items: seq<Value>, acc: seq<Value>, j: seq<byte>, rest: seq<byte>)
    requires items != [] && JoinPacked(PackItems(items[1..])) == Stream(j)
    requires ValueForList(j + rest, |items[1..]|, acc + [items[0]]) == Decoded(List(acc + [items[0]] + items[1..]), rest)
    requires Pack(items[0]).Stream? && Decode(Pack(items[0]).bytes + (j + rest)) == Decoded(items[0], j + rest)
    ensures JoinPacked(PackItems(items)).Stream?
    ensures ValueForList(JoinPacked(PackItems(items)).bytes + rest, |items|, acc) == Decoded(List(acc + items), rest)
  {
    MoveFirst(acc, items);
    var p := Pack(items[0]).bytes;
    Concat3(p, j, rest);
    PackItemsFirst(items);
    JoinFirst(PackItems(items));
    ListDecodingStep(p + (j + rest), j + rest, |items|, |items[1..]|, acc, acc + [items[0]], items[0]);
  }

  lemma {:induction false} EntryRoundTrip(e: Entry<Value>, rest: seq<byte>)
    requires SmallEntry(e)
    ensures PackEntry(e).Stream?
    ensures Decode(PackEntry(e).bytes + rest) == Decoded(e.key, Pack(e.val).bytes + rest)
    ensures Decode(Pack(e.val).bytes + rest) == Decoded(e.val, rest)
    decreases e
  {
    RoundTrip(e.val, rest);
    var pv := Pack(e.val).bytes;
    RoundTrip(e.key, pv + rest);
    var pk := Pack(e.key).bytes;
    assert PackEntry(e) == Stream(pk + pv);
    Concat3(pk, pv, rest);
  }

  lemma {:induction false} MapRoundTrip(es: seq<Entry<Value>>, acc: seq<Entry<Value>>, rest: seq<byte>)
    requires forall i :: 0 <= i < |es| ==> SmallEntry(es[i])
    requires DistinctKeys(acc + es)
    ensures JoinPacked(PackEntries(es)).Stream?
    ensures ValueForMap(JoinPacked(PackEntries(es)).bytes + rest, |es|, acc)
         == Decoded(Map(acc + es), rest)
    decreases es
  {
    if es == [] {
      assert acc + es == acc;
    } else {
      MoveFirst(acc, es);
      MapRoundTrip(es[1..], acc + [es[0]], rest);
      var j := JoinPacked(PackEntries(es[1..])).bytes;
      EntryRoundTrip(es[0], j + rest);
      MapRoundTripStep(es, acc, j, rest);
    }
  }

  /** One pair of a hash's round trip: the first key and value, then the rest of the hash. */
  lemma MapRoundTripStep(es: seq<Entry<Value>>, acc: seq<Entry<Value>>, j: seq<byte>, rest: seq<byte>)
    requires es != [] && DistinctKeys(acc + es) && JoinPacked(PackEntries(es[1..])) == Stream(j)
    requires ValueForMap(j + rest, |es[1..]|, acc + [es[0]]) == Decoded(Map(acc + [es[0]] + es[1..]), rest)
    requires PackEntry(es[0]).Stream?
    requires Decode(PackEntry(es[0]).bytes + (j + rest)) == Decoded(es[0].key, Pack(es[0].val).bytes + (j + rest))
    requires Decode(Pack(es[0].val).bytes + (j + rest)) == Decoded(es[0].val, j + rest)
    ensures JoinPacked(PackEntries(es)).Stream?
    ensures ValueForMap(JoinPacked(PackEntries(es)).bytes + rest, |es|, acc) == Decoded(Map(acc + es), rest)
  {
    MoveFirst(acc, es);
    KeyNotYetStored(acc, es[0], es[1..]);
    PutStores(acc, es[0].key, es[0].val);
    var p := PackEntry(es[0]).bytes;
    Concat3(p, j, rest);
    PackEntriesFirst(es);
    JoinFirst(PackEntries(es));
    MapDecodingStep(p + (j + rest), Pack(es[0].val).bytes + (j + rest), j + rest, |es|, |es[1..]|,
                    acc, acc + [es[0]], es[0].key, es[0].val);
  }

  lemma EmptyPrefix<T>(s: seq<T>)
    ensures [] + s == s
  {
  }

  lemma Concat3(a: seq<byte>, b: seq<byte>, c: seq<byte>)
    ensures (a + b) + c == a + (b + c)
  {
  }

  /** In a hash with distinct keys, a key not yet stored is new to the accumulator. */
  lemma KeyNotYetStored(acc: seq<Entry<Value>>, e: Entry<Value>, tail: seq<Entry<Value>>)
    requires DistinctKeys(acc + [e] + tail)
    ensures e.key !in KeysOf(acc)
  {
    var all := acc + [e] + tail;
    assert all[|acc|] == e;
    KeysOfElements(acc);
    forall i | 0 <= i < |acc|
      ensures KeysOf(acc)[i] != e.key
    {
      assert all[i] == acc[i];
    }
  }
}
