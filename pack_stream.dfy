/**
 * The PackStream serialisation format as lib/pack_stream.rb implements it:
 * the value model, the marker table, the `Packer` (a pure function from a
 * value to bytes) and the decoder written as a function on byte sequences.
 * The decoder function is the specification that the imperative `Unpacker`
 * class (module PackStreamUnpacker) is proved against.
 *
 * The code is modelled as written, quirks included: integer bytes come from
 * splitting the hexadecimal text of the number into pairs from the left, a
 * composite header always packs its size as a single byte, and the decoder
 * reads the bit width of an integer marker as a byte count.
 */
module PackStream {

  /** One byte of a stream; Ruby's `String#bytes` yields these. */
  type byte = x: int | 0 <= x < 256

  /** One hexadecimal digit of `Integer#to_s(16)`. */
  type hexDigit = d: int | 0 <= d < 16

  datatype Option<T> = None | Some(value: T)

  /**
   * The Ruby objects the codec handles. `Map` is a Hash in insertion order;
   * `Unsupported` stands for every other object (a Symbol, a Float, ...),
   * for which `Packer#packed_stream` returns nil.
   */
  datatype Value =
    | Null
    | Bool(b: bool)
    | Int(i: int)
    | Text(bytes: seq<byte>)
    | List(items: seq<Value>)
    | Map(entries: seq<Entry<Value>>)
    | Unsupported

  /** One key/value association of an ordered Ruby Hash. */
  datatype Entry<V> = Entry(key: Value, val: V)

  // ---------------------------------------------------------------------
  // Ordered hashes
  // ---------------------------------------------------------------------

  function KeysOf<V>(es: seq<Entry<V>>): (ks: seq<Value>)
    ensures |ks| == |es|
  {
    if es == [] then [] else [es[0].key] + KeysOf(es[1..])
  }

  /** `Hash#keys`, in insertion order. */
  lemma {:induction false} KeysOfElements<V>(es: seq<Entry<V>>)
    ensures forall i :: 0 <= i < |es| ==> KeysOf(es)[i] == es[i].key
    decreases |es|
  {
    if es != [] {
      KeysOfElements(es[1..]);
    }
  }

  /** `hash[k]`: the value associated with `k`, if any. */
  function Lookup<V>(es: seq<Entry<V>>, k: Value): (r: Option<V>)
  {
    if es == [] then None
    else if es[0].key == k then Some(es[0].val)
    else Lookup(es[1..], k)
  }

  /** No key occurs twice, as in every Ruby Hash. */
  predicate DistinctKeys<V>(es: seq<Entry<V>>)
  {
    forall i, j :: 0 <= i < j < |es| ==> es[i].key != es[j].key
  }

  /**
   * `hash[k] = v`: a new key goes to the end; an existing key keeps its
   * position and takes the new value.
   */
  function Put<V>(es: seq<Entry<V>>, k: Value, v: V): (r: seq<Entry<V>>)
  {
    if es == [] then [Entry(k, v)]
    else if es[0].key == k then [Entry(k, v)] + es[1..]
    else [es[0]] + Put(es[1..], k, v)
  }

  /** `hash[k]` finds a value exactly when `k` is one of the hash's keys. */
  lemma {:induction false} LookupFindsKey<V>(es: seq<Entry<V>>, k: Value)
    ensures Lookup(es, k).Some? <==> k in KeysOf(es)
    decreases |es|
  {
    if es != [] {
      LookupFindsKey(es[1..], k);
      assert KeysOf(es) == [es[0].key] + KeysOf(es[1..]);
    }
  }

  /**
   * `hash[k] = v` appends a new key, keeps the key order when `k` is
   * already present, stores `v` under `k` and leaves every other key's
   * value alone.
   */
  lemma {:induction false} PutStores<V>(es: seq<Entry<V>>, k: Value, v: V)
    ensures k !in KeysOf(es) ==> Put(es, k, v) == es + [Entry(k, v)]
    ensures k in KeysOf(es) ==> KeysOf(Put(es, k, v)) == KeysOf(es)
    ensures Lookup(Put(es, k, v), k) == Some(v)
    ensures forall j :: j != k ==> Lookup(Put(es, k, v), j) == Lookup(es, j)
  {
    PutKeys(es, k, v);
    PutLookups(es, k, v);
  }

  lemma {:induction false} PutKeys<V>(es: seq<Entry<V>>, k: Value, v: V)
    ensures k !in KeysOf(es) ==> Put(es, k, v) == es + [Entry(k, v)]
    ensures k in KeysOf(es) ==> KeysOf(Put(es, k, v)) == KeysOf(es)
    decreases |es|
  {
    if es != [] {
      assert KeysOf(es) == [es[0].key] + KeysOf(es[1..]);
      if es[0].key != k {
        PutKeys(es[1..], k, v);
        assert es == [es[0]] + es[1..];
      }
    }
  }

  lemma {:induction false} PutLookups<V>(es: seq<Entry<V>>, k: Value, v: V)
    ensures Lookup(Put(es, k, v), k) == Some(v)
    ensures forall j :: j != k ==> Lookup(Put(es, k, v), j) == Lookup(es, j)
    decreases |es|
  {
    if es != [] && es[0].key != k {
      PutLookups(es[1..], k, v);
    }
  }

  // ---------------------------------------------------------------------
  // The marker table (MARKER_TYPES, MARKER_BYTES)
  // ---------------------------------------------------------------------

  /** The type symbols of the table's [type, size] entries. */
  datatype Kind =
    | FloatKind | IntKind | BytesKind | TextKind | ListKind | MapKind | StructKind
    | TinyTextKind | TinyListKind | TinyMapKind

  /** A MARKER_TYPES entry: a constant object or a [type, size] pair. */
  datatype MarkerSpec = Constant(v: Value) | Sized(kind: Kind, size: nat)

  /** MARKER_TYPES, keyed by the marker byte; every key lies in C0..DE. */
  function MarkerTypes(m: int): Option<MarkerSpec>
  {
    if m < 0xC0 || 0xDE < m then None
    else if m == 0xC0 then Some(Constant(Null))
    else if m == 0xC1 then Some(Sized(FloatKind, 64))
    else if m == 0xC2 then Some(Constant(Bool(false)))
    else if m == 0xC3 then Some(Constant(Bool(true)))
    else if m == 0xC8 then Some(Sized(IntKind, 8))
    else if m == 0xC9 then Some(Sized(IntKind, 16))
    else if m == 0xCA then Some(Sized(IntKind, 32))
    else if m == 0xCB then Some(Sized(IntKind, 64))
    else if m == 0xCC then Some(Sized(BytesKind, 8))
    else if m == 0xCD then Some(Sized(BytesKind, 16))
    else if m == 0xCE then Some(Sized(BytesKind, 32))
    else if m == 0xD0 then Some(Sized(TextKind, 8))
    else if m == 0xD1 then Some(Sized(TextKind, 16))
    else if m == 0xD2 then Some(Sized(TextKind, 32))
    else if m == 0xD4 then Some(Sized(ListKind, 8))
    else if m == 0xD5 then Some(Sized(ListKind, 16))
    else if m == 0xD6 then Some(Sized(ListKind, 32))
    else if m == 0xD8 then Some(Sized(MapKind, 8))
    else if m == 0xD9 then Some(Sized(MapKind, 16))
    else if m == 0xDA then Some(Sized(MapKind, 32))
    else if m == 0xDC then Some(Sized(StructKind, 8))
    else if m == 0xDD then Some(Sized(StructKind, 16))
    else if m == 0xDE then Some(Sized(StructKind, 32))
    else None
  }

  /**
   * MARKER_BYTES: MARKER_TYPES inverted, keeping only the constant
   * objects (nil, false, true).
   */
  function MarkerBytes(v: Value): Option<byte>
  {
    match v
    case Null => Some(0xC0)
    case Bool(b) => if b then Some(0xC3) else Some(0xC2)
    case _ => None
  }

  /** `PackStream.marker_type_and_size`. */
  function MarkerTypeAndSize(m: int): Option<(Kind, nat)>
  {
    var t := MarkerTypes(m);
    if t.Some? && t.value.Sized? then Some((t.value.kind, t.value.size))
    else if 0x80 <= m <= 0x8F then Some((TinyTextKind, m - 0x80))
    else if 0x90 <= m <= 0x9F then Some((TinyListKind, m - 0x90))
    else if 0xA0 <= m <= 0xAF then Some((TinyMapKind, m - 0xA0))
    else None
  }

  // ---------------------------------------------------------------------
  // The Packer
  // ---------------------------------------------------------------------

  /**
   * What `Packer#packed_stream` produces: a byte string, nil (an object
   * it has no rule for, or an integer outside every range), or an
   * exception (NoMethodError or TypeError raised on the way).
   */
  datatype Packed = Stream(bytes: seq<byte>) | NilStream | PackError

  /** `Array#pack('c*')`: each integer keeps its low eight bits. */
  function PackArray(a: seq<int>): (r: seq<byte>)
    ensures |r| == |a|
  {
    if a == [] then [] else [a[0] % 256] + PackArray(a[1..])
  }

  lemma PackArrayOne(a: int)
    ensures PackArray([a]) == [a % 256]
  {
    assert [a][1..] == [];
  }

  lemma PackArrayTwo(a: int, b: int)
    ensures PackArray([a, b]) == [a % 256, b % 256]
  {
    assert [a, b][1..] == [b];
    PackArrayOne(b);
  }

  /** Each integer keeps its low eight bits. */
  lemma {:induction false} PackArrayBytes(a: seq<int>)
    ensures forall i :: 0 <= i < |a| ==> PackArray(a)[i] == a[i] % 256
    decreases |a|
  {
    if a != [] {
      PackArrayBytes(a[1..]);
    }
  }

  /** `Packer#packed_stream`. */
  function Pack(v: Value): Packed
    decreases v
  {
    match MarkerBytes(v)
    case Some(m) => Stream(PackArray([m]))
    case None =>
      match v
      case Int(x) => IntegerStream(x)
      case Text(b) => StringStream(b)
      case List(items) => ArrayStream(items)
      case Map(es) => HashStream(es)
      case _ => NilStream
  }

  const MaxInt64: int := 0x7FFF_FFFF_FFFF_FFFF

  /** `Packer#integer_stream`: the marker chosen by half-open ranges. */
  function IntegerStream(x: int): Packed
  {
    if -0xFF <= x < -0x0F then Stream([0xC8] + IntegerBytes(x, 1))
    else if -0x0F <= x < 0x80 then Stream(IntegerBytes(x, 1))
    else if 0x80 <= x < 0x8000 then Stream([0xC9] + IntegerBytes(x, 2))
    else if 0x8000 <= x < 0x8000_0000 then Stream([0xCA] + IntegerBytes(x, 4))
    else if 0x8000_0000 <= x <= MaxInt64 then Stream([0xCB] + IntegerBytes(x, 8))
    else NilStream
  }

  /** `Packer#string_stream`, on the raw bytes of the string. */
  function StringStream(b: seq<byte>): Packed
  {
    match HeaderBytes(0x80, 0xD0, |b|)
    case None => PackError
    case Some(h) => Stream(MarkerString(h) + b)
  }

  /** `Packer#array_stream`: the header counts every element. */
  function ArrayStream(items: seq<Value>): Packed
    decreases items, 1
  {
    match HeaderBytes(0x90, 0xD4, |items|)
    case None => PackError
    case Some(h) =>
      match JoinPacked(PackItems(items))
      case Stream(body) => Stream(MarkerString(h) + body)
      case _ => PackError
  }

  /** `Packer#hash_stream`. */
  function HashStream(es: seq<Entry<Value>>): Packed
    decreases es, 1
  {
    match HeaderBytes(0xA0, 0xD8, |es|)
    case None => PackError
    case Some(h) =>
      match JoinPacked(PackEntries(es))
      case Stream(body) => Stream(MarkerString(h) + body)
      case _ => PackError
  }

  /** What `array_stream` packs: every element's own stream, in order. */
  function PackItems(items: seq<Value>): (ps: seq<Packed>)
    decreases items, 0
    ensures |ps| == |items|
  {
    if items == [] then [] else [Pack(items[0])] + PackItems(items[1..])
  }

  /** The i-th packed element is the i-th element's stream. */
  lemma {:induction false} PackItemsElements(items: seq<Value>)
    ensures forall i :: 0 <= i < |items| ==> PackItems(items)[i] == Pack(items[i])
    decreases |items|
  {
    if items != [] {
      PackItemsElements(items[1..]);
    }
  }

  /**
   * One pair of `hash_stream`: the key's stream `+` the value's stream;
   * a nil on either side raises (nil has no `+`, a String cannot add nil).
   */
  function PackEntry(e: Entry<Value>): Packed
    decreases e
  {
    match (Pack(e.key), Pack(e.val))
    case (Stream(k), Stream(v)) => Stream(k + v)
    case _ => PackError
  }

  function PackEntries(es: seq<Entry<Value>>): (ps: seq<Packed>)
    decreases es, 0
    ensures |ps| == |es|
  {
    if es == [] then [] else [PackEntry(es[0])] + PackEntries(es[1..])
  }

  /** The i-th packed pair is the i-th pair's stream. */
  lemma {:induction false} PackEntriesElements(es: seq<Entry<Value>>)
    ensures forall i :: 0 <= i < |es| ==> PackEntries(es)[i] == PackEntry(es[i])
    decreases |es|
  {
    if es != [] {
      PackEntriesElements(es[1..]);
    }
  }

  /** The bytes `Array#join` takes from one element: nil becomes "". */
  function BytesOf(p: Packed): seq<byte>
  {
    if p.Stream? then p.bytes else []
  }

  /**
   * `Array#join` over packed elements: a raised exception propagates,
   * otherwise the streams are concatenated in order and nils vanish.
   */
  function JoinPacked(ps: seq<Packed>): Packed
  {
    if ps == [] then Stream([])
    else
      match JoinPacked(ps[1..])
      case Stream(rest) => if ps[0].PackError? then PackError else Stream(BytesOf(ps[0]) + rest)
      case _ => PackError
  }

  /** The join raises exactly when one of the elements raised, and is never nil. */
  lemma {:induction false} JoinPackedRaises(ps: seq<Packed>)
    ensures JoinPacked(ps).PackError? <==> PackError in ps
    ensures !JoinPacked(ps).NilStream?
    decreases |ps|
  {
    if ps != [] {
      JoinPackedRaises(ps[1..]);
      assert ps == [ps[0]] + ps[1..];
    }
  }

  /**
   * `Packer#header_bytes`: the marker of a composite of `size` elements
   * (or bytes), and the size itself as the second element. The size is
   * later packed as ONE byte whatever the marker says. nil, for a size of
   * 0xFFFFFFFF or more, makes `marker_string` raise.
   */
  function HeaderBytes(tinyBase: int, regularBase: int, size: nat): Option<seq<int>>
  {
    if size < 0x10 then Some([tinyBase + size])
    else if size < 0xFF then Some([regularBase, size])
    else if size < 0xFFFF then Some([regularBase + 1, size])
    else if size < 0xFFFF_FFFF then Some([regularBase + 2, size])
    else None
  }

  /** `Packer#marker_string`. */
  function MarkerString(bytes: seq<int>): seq<byte>
  {
    PackArray(bytes)
  }

  // ---------------------------------------------------------------------
  // Integer bytes: pack_integer_object_as_string
  // ---------------------------------------------------------------------

  /** The digits of `n.to_s(16)`, most significant first ("0" for zero). */
  function HexDigits(n: nat): (ds: seq<hexDigit>)
    ensures |ds| >= 1
  {
    if n < 16 then [n] else HexDigits(n / 16) + [n % 16]
  }

  /** The hex text cut into chunks of two digits from the left (the last may be one digit), each read as a number. */
  function Pairs(ds: seq<hexDigit>): (r: seq<int>)
    ensures |r| == (|ds| + 1) / 2
    ensures forall i :: 0 <= i < |r| ==> 0 <= r[i] < 256
  {
    if |ds| == 0 then []
    else if |ds| == 1 then [ds[0]]
    else [16 * ds[0] + ds[1]] + Pairs(ds[2..])
  }

  /**
   * The chunks `pack_integer_object_as_string` takes from the hex text of x. A negative number
   * prints as "-" and its digits, so the first chunk is the sign and the
   * first digit ("-1" from "-10"), which `to_i(16)` reads as negative.
   */
  function HexChunks(x: int): seq<int>
  {
    if x >= 0 then Pairs(HexDigits(x))
    else
      var ds := HexDigits(-x);
      [-ds[0]] + Pairs(ds[1..])
  }

  /** `n` zero bytes. */
  function Zeros(n: nat): (r: seq<byte>)
    ensures |r| == n
  {
    if n == 0 then [] else [0] + Zeros(n - 1)
  }

  lemma {:induction false} ZerosAreZero(n: nat)
    ensures forall i :: 0 <= i < n ==> Zeros(n)[i] == 0
    decreases n
  {
    if n > 0 {
      ZerosAreZero(n - 1);
    }
  }

  /** The padding loop of `pack_integer_object_as_string`: zeros in front until the size is reached. */
  function LeftPad(a: seq<int>, size: nat): (r: seq<int>)
    ensures |r| == if |a| < size then size else |a|
  {
    if |a| >= size then a else Zeros(size - |a|) + a
  }

  /** The padded sequence ends in `a`, and everything in front of it is zero. */
  lemma LeftPadded(a: seq<int>, size: nat)
    ensures var r := LeftPad(a, size); r[|r| - |a|..] == a && forall i :: 0 <= i < |r| - |a| ==> r[i] == 0
  {
    var r := LeftPad(a, size);
    if |a| < size {
      ZerosAreZero(size - |a|);
      assert r[|r| - |a|..] == a;
      assert forall i :: 0 <= i < |r| - |a| ==> r[i] == Zeros(size - |a|)[i];
    }
  }

  lemma OneMoreZero(k: nat, c: seq<int>)
    ensures [0] + (Zeros(k) + c) == Zeros(k + 1) + c
  {
    assert [0] + Zeros(k) == Zeros(k + 1);
  }

  /** What `pack_integer_object_as_string(size)` returns. */
  function IntegerBytes(x: int, size: nat): seq<byte>
  {
    PackArray(LeftPad(HexChunks(x), size))
  }

  /**
   * `pack_integer_object_as_string`, with its padding loop. Its result
   * is the big-endian bytes of `x` for the numbers whose hexadecimal text
   * has an even number of digits (see PackStreamProperties).
   */
  method PackIntegerObjectAsString(x: int, size: nat) returns (r: seq<byte>)
    ensures r == IntegerBytes(x, size)
    ensures |r| == if |HexChunks(x)| < size then size else |HexChunks(x)|
  {
    var a := HexChunks(x);
    ghost var chunks := a;
    assert a == Zeros(0) + chunks;
    while |a| < size
      invariant |chunks| <= |a| && (|chunks| < |a| ==> |a| <= size)
      invariant a == Zeros(|a| - |chunks|) + chunks
      decreases size - |a|
    {
      OneMoreZero(|a| - |chunks|, chunks);
      a := [0] + a;
    }
    assert a == LeftPad(chunks, size);
    r := PackArray(a);
  }

  // ---------------------------------------------------------------------
  // The decoder, as a function on the bytes that remain in the stream
  // ---------------------------------------------------------------------

  /**
   * The outcome of reading from the stream: what was read and the bytes
   * left after it, or `Exhausted` when `StringIO#read` returned nil
   * (a positive-length read at the end of the stream), which makes the
   * Ruby code raise.
   */
  datatype Decoded<T> = Decoded(value: T, rest: seq<byte>) | Exhausted

  /** `shift_bytes(n)`: up to n bytes read from the stream, or nil's NoMethodError at its end. */
  function Read(s: seq<byte>, n: nat): (r: Decoded<seq<byte>>)
    ensures r.Exhausted? <==> 0 < n && s == []
    ensures r.Decoded? ==> r.value + r.rest == s
    ensures r.Decoded? ==> |r.value| == if n < |s| then n else |s|
  {
    if n == 0 then Decoded([], s)
    else if s == [] then Exhausted
    else
      var k := if n < |s| then n else |s|;
      Decoded(s[..k], s[k..])
  }

  /** Unsigned big-endian value of a byte sequence (`value_for_int!`). */
  function UnsignedBE(b: seq<byte>): nat
  {
    if b == [] then 0 else UnsignedBE(b[..|b| - 1]) * 256 + b[|b| - 1]
  }

  /** `Unpacker#unpack_value!` on the bytes `s` that remain in the stream. */
  function Decode(s: seq<byte>): (r: Decoded<Value>)
    decreases |s|, 0
    ensures r.Decoded? ==> |r.rest| < |s|
  {
    if s == [] then Exhausted
    else
      var marker, t := s[0], s[1..];
      match MarkerTypeAndSize(marker)
      case Some((kind, size)) =>
        if kind == TextKind || kind == ListKind || kind == MapKind then
          if t == [] then Exhausted
          else
            var r := ValueForType(kind, t[0], t[1..]);
            r
        else
          var r := ValueForType(kind, size, t);
          r
      case None =>
        match MarkerTypes(marker)
        case Some(Constant(v)) => Decoded(v, t)
        case _ => Decoded(Int(marker), t)
  }

  /** `Unpacker#value_for_type!`. */
  function ValueForType(kind: Kind, size: nat, s: seq<byte>): (r: Decoded<Value>)
    decreases |s|, 2
    ensures r.Decoded? ==> |r.rest| <= |s|
  {
    match kind
    case IntKind => ValueForInt(size, s)
    case TinyTextKind | TextKind | BytesKind =>
      (match Read(s, size)
       case Decoded(b, rest) => Decoded(Text(b), rest)
       case Exhausted => Exhausted)
    case TinyListKind | ListKind => ValueForList(s, size, [])
    case TinyMapKind | MapKind => ValueForMap(s, size, [])
    case FloatKind | StructKind => Decoded(Null, s)
  }

  /** `Unpacker#value_for_int!`: `size` bytes, read as unsigned. */
  function ValueForInt(size: nat, s: seq<byte>): (r: Decoded<Value>)
    ensures r.Decoded? ==> |r.rest| <= |s|
  {
    match Read(s, size)
    case Decoded(b, rest) => Decoded(Int(UnsignedBE(b)), rest)
    case Exhausted => Exhausted
  }

  /** The list branch of `value_for_type!`: `size` values read in turn, those read so far in `acc`. */
  function ValueForList(s: seq<byte>, n: nat, acc: seq<Value>): (r: Decoded<Value>)
    decreases |s|, 1
    ensures r.Decoded? ==> |r.rest| <= |s|
  {
    if n == 0 then Decoded(List(acc), s)
    else
      match Decode(s)
      case Exhausted => Exhausted
      case Decoded(v, t) =>
        var r := ValueForList(t, n - 1, acc + [v]);
        r
  }

  /** `Unpacker#value_for_map!`, with the hash built so far in `acc`. */
  function ValueForMap(s: seq<byte>, n: nat, acc: seq<Entry<Value>>): (r: Decoded<Value>)
    decreases |s|, 1
    ensures r.Decoded? ==> |r.rest| <= |s|
  {
    if n == 0 then Decoded(Map(acc), s)
    else
      match Decode(s)
      case Exhausted => Exhausted
      case Decoded(k, t) => ValueForMapEntry(t, k, n - 1, acc)
  }

  /**
   * The rest of `value_for_map!` once key `k` has been read: read its value,
   * store the pair and go on with the `n` pairs still to come.
   */
  function ValueForMapEntry(t: seq<byte>, k: Value, n: nat, acc: seq<Entry<Value>>): (r: Decoded<Value>)
    decreases |t|, 1
    ensures r.Decoded? ==> |r.rest| <= |t|
  {
    match Decode(t)
    case Exhausted => Exhausted
    case Decoded(v, u) =>
      var r := ValueForMap(u, n, Put(acc, k, v));
      r
  }

  /** A list decodes its elements one after another, in order. */
  lemma ListDecodingStep(s: seq<byte>, t: seq<byte>, n: nat, m: nat,
                         acc: seq<Value>, acc': seq<Value>, v: Value)
    requires n == m + 1 && Decode(s) == Decoded(v, t) && acc' == acc + [v]
    ensures ValueForList(s, n, acc) == ValueForList(t, m, acc')
  {
    assert ValueForList(s, n, acc) == ValueForList(t, m, acc + [v]);
  }

  /** A list whose next element hits the end of the stream raises. */
  lemma ListDecodingExhausted(s: seq<byte>, n: nat, acc: seq<Value>)
    requires n > 0 && Decode(s).Exhausted?
    ensures ValueForList(s, n, acc) == Exhausted
  {
  }

  /**
   * A map decodes key, then value, and stores the pair as `Hash#[]=`
   * does: a later duplicate key overwrites the earlier value in place.
   */
  lemma MapDecodingStep(s: seq<byte>, t: seq<byte>, u: seq<byte>, n: nat, m: nat,
                        acc: seq<Entry<Value>>, acc': seq<Entry<Value>>, k: Value, v: Value)
    requires n == m + 1 && Decode(s) == Decoded(k, t) && Decode(t) == Decoded(v, u)
    requires acc' == Put(acc, k, v)
    ensures ValueForMap(s, n, acc) == ValueForMap(u, m, acc')
  {
    MapKeyStep(s, t, n, m, acc, k);
    MapValueStep(t, u, k, m, acc, acc', v);
  }

  lemma MapKeyStep(s: seq<byte>, t: seq<byte>, n: nat, m: nat, acc: seq<Entry<Value>>, k: Value)
    requires n == m + 1 && Decode(s) == Decoded(k, t)
    ensures ValueForMap(s, n, acc) == ValueForMapEntry(t, k, m, acc)
  {
  }

  lemma MapValueStep(t: seq<byte>, u: seq<byte>, k: Value, m: nat,
                     acc: seq<Entry<Value>>, acc': seq<Entry<Value>>, v: Value)
    requires Decode(t) == Decoded(v, u) && acc' == Put(acc, k, v)
    ensures ValueForMapEntry(t, k, m, acc) == ValueForMap(u, m, acc')
  {
  }

  /** A map whose key or value hits the end of the stream raises. */
  lemma MapDecodingExhausted(s: seq<byte>, n: nat, acc: seq<Entry<Value>>)
    requires n > 0
    requires Decode(s).Exhausted? || (Decode(s).Decoded? && Decode(Decode(s).rest).Exhausted?)
    ensures ValueForMap(s, n, acc) == Exhausted
  {
  }
}
