/**
 * `PackStream::Unpacker`: a cursor over a byte stream (the StringIO of the
 * source) that every `shift_bytes` advances. Each method is proved to do
 * what the corresponding decoder function of module PackStream says, on the
 * bytes that remained when it was called.
 */
module PackStreamUnpacker {
  import opened PackStream

  class Unpacker {
    /** The contents of the StringIO. */
    const data: seq<byte>
    /** Its read position. */
    var pos: nat

    predicate Valid()
      reads this
    {
      pos <= |data|
    }

    /** The bytes not yet read. */
    function Remaining(): seq<byte>
      reads this
      requires Valid()
    {
      data[pos..]
    }

    /** `StringIO#eof?`. */
    function AtEof(): (b: bool)
      reads this
      requires Valid()
      ensures b <==> Remaining() == []
    {
      pos == |data|
    }

    /**
     * The method's result `r` and the new position agree with the outcome
     * `d` of the decoder function: a value and the rest of the stream, or
     * an exception, which only happens once the stream is at its end.
     */
    ghost predicate Agrees<T>(r: Option<T>, d: Decoded<T>)
      reads this
      requires Valid()
    {
      match d
      case Decoded(v, rest) => r == Some(v) && Remaining() == rest
      case Exhausted => r == None && AtEof()
    }

    constructor (stream: seq<byte>)
      ensures data == stream && pos == 0 && Valid()
    {
      data := stream;
      pos := 0;
    }

    /** `shift_bytes(length)`. */
    method ShiftBytes(length: nat) returns (r: Option<seq<byte>>)
      requires Valid()
      modifies this
      ensures Valid() && Agrees(r, Read(old(Remaining()), length))
    {
      if 0 < length && pos == |data| {
        return None;
      }
      var k := if length < |data| - pos then length else |data| - pos;
      assert data[pos..][..k] == data[pos..pos + k] && data[pos..][k..] == data[pos + k..];
      r := Some(data[pos..pos + k]);
      pos := pos + k;
    }

    /** `shift_byte`: `shift_bytes(1).first`. */
    method ShiftByte() returns (r: Option<byte>)
      requires Valid()
      modifies this
      ensures Valid()
      ensures old(Remaining()) == [] ==> r == None && AtEof()
      ensures old(Remaining()) != [] ==> r == Some(old(Remaining())[0]) && Remaining() == old(Remaining())[1..]
    {
      var b := ShiftBytes(1);
      if b.None? {
        return None;
      }
      r := Some(b.value[0]);
    }

    /** `unpack_value!`: reads exactly one value. */
    method UnpackValue() returns (r: Option<Value>)
      requires Valid()
      modifies this
      ensures Valid() && Agrees(r, Decode(old(Remaining())))
      decreases |data| - pos, 0
    {
      ghost var s := Remaining();
      var marker := ShiftByte();
      if marker.None? {
        return None;
      }
      var m := marker.value;
      match MarkerTypeAndSize(m)
      case Some((kind, size)) =>
        var n := size;
        if kind == TextKind || kind == ListKind || kind == MapKind {
          var sizeByte := ShiftByte();
          if sizeByte.None? {
            return None;
          }
          n := sizeByte.value;
        }
        r := ValueForType(kind, n);
      case None =>
        match MarkerTypes(m)
        case Some(Constant(v)) =>
          r := Some(v);
        case _ =>
          r := Some(Int(m));
    }

    /** `value_for_type!(type, size)`. */
    method ValueForType(kind: Kind, size: nat) returns (r: Option<Value>)
      requires Valid()
      modifies this
      ensures Valid() && old(pos) <= pos
      ensures Agrees(r, PackStream.ValueForType(kind, size, old(Remaining())))
      decreases |data| - pos, 2
    {
      ghost var s := Remaining();
      match kind
      case IntKind =>
        r := ValueForInt(size);
      case TinyTextKind | TextKind | BytesKind =>
        var b := ShiftBytes(size);
        r := if b.Some? then Some(Text(b.value)) else None;
      case TinyListKind | ListKind =>
        assert PackStream.ValueForType(kind, size, s) == PackStream.ValueForList(s, size, []);
        r := ValueForList(size);
      case TinyMapKind | MapKind =>
        assert PackStream.ValueForType(kind, size, s) == PackStream.ValueForMap(s, size, []);
        r := ValueForMap(size);
      case FloatKind | StructKind =>
        r := Some(Null);
    }

    /** `value_for_int!(size)`: the bytes as an unsigned big-endian number. */
    method ValueForInt(size: nat) returns (r: Option<Value>)
      requires Valid()
      modifies this
      ensures Valid() && old(pos) <= pos
      ensures Agrees(r, PackStream.ValueForInt(size, old(Remaining())))
    {
      var b := ShiftBytes(size);
      if b.None? {
        return None;
      }
      r := Some(Int(UnsignedBE(b.value)));
    }

    /** The list branch of `value_for_type!`: `size` values read in turn. */
    method ValueForList(size: nat) returns (r: Option<Value>)
      requires Valid()
      modifies this
      ensures Valid() && old(pos) <= pos
      ensures Agrees(r, PackStream.ValueForList(old(Remaining()), size, []))
      decreases |data| - pos, 1
    {
      ghost var s := Remaining();
      var items: seq<Value> := [];
      var n := size;
      while n > 0
        invariant Valid() && old(pos) <= pos
        invariant PackStream.ValueForList(Remaining(), n, items) == PackStream.ValueForList(s, size, [])
        decreases n
      {
        ghost var before := Remaining();
        var v := UnpackValue();
        if v.None? {
          ListDecodingExhausted(before, n, items);
          return None;
        }
        ghost var n0, items0 := n, items;
        items := items + [v.value];
        n := n - 1;
        ListDecodingStep(before, Remaining(), n0, n, items0, items, v.value);
      }
      r := Some(List(items));
    }

    /** `value_for_map!(size)`: a later duplicate key overwrites an earlier one. */
    method ValueForMap(size: nat) returns (r: Option<Value>)
      requires Valid()
      modifies this
      ensures Valid() && old(pos) <= pos
      ensures Agrees(r, PackStream.ValueForMap(old(Remaining()), size, []))
      decreases |data| - pos, 1
    {
      ghost var s := Remaining();
      var hash: seq<Entry<Value>> := [];
      var n := size;
      while n > 0
        invariant Valid() && old(pos) <= pos
        invariant PackStream.ValueForMap(Remaining(), n, hash) == PackStream.ValueForMap(s, size, [])
        decreases n
      {
        ghost var before := Remaining();
        var key := UnpackValue();
        if key.None? {
          MapDecodingExhausted(before, n, hash);
          return None;
        }
        ghost var middle := Remaining();
        var val := UnpackValue();
        if val.None? {
          MapDecodingExhausted(before, n, hash);
          return None;
        }
        ghost var n0, hash0 := n, hash;
        hash := Put(hash, key.value, val.value);
        n := n - 1;
        MapDecodingStep(before, middle, Remaining(), n0, n, hash0, hash, key.value, val.value);
      }
      r := Some(Map(hash));
    }
  }
}
