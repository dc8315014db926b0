/**
 * What lib/session.rb promises about its messages: CODE_TYPES inverts
 * TYPE_CODES, `Message.new` accepts exactly the Integers and the symbols
 * of the table, a message packs as a tiny list headed 0x92 + |args|,
 * `Message.pack` concatenates in order, the query job sends RUN then
 * PULL_ALL, `value` zips field names with interpreted values, and
 * `response_messages` gives back the messages whose encodings make up
 * the body.
 */
module SessionProperties {
  import opened PackStream
  import opened PackStreamProperties
  import opened Session

  // ---------------------------------------------------------------------
  // TYPE_CODES and CODE_TYPES
  // ---------------------------------------------------------------------

  /** `TYPE_CODES[s]` finds only codes that the table pairs with `s`. */
  lemma {:induction false} CodeOfSound(t: seq<(Symbol, int)>, s: Symbol, c: int) returns (i: nat)
    requires CodeOf(t, s) == Some(c)
    ensures i < |t| && t[i] == (s, c)
    decreases |t|
  {
    if t[0].0 == s {
      i := 0;
    } else {
      var j := CodeOfSound(t[1..], s, c);
      i := j + 1;
    }
  }

  /** A symbol the table does not mention has no code. */
  lemma {:induction false} CodeOfMissing(t: seq<(Symbol, int)>, s: Symbol)
    requires forall i :: 0 <= i < |t| ==> t[i].0 != s
    ensures CodeOf(t, s) == None
    decreases |t|
  {
    if t != [] {
      assert forall i :: 0 <= i < |t[1..]| ==> t[1..][i] == t[i + 1];
      CodeOfMissing(t[1..], s);
    }
  }

  /** `Hash#invert` of a table without repeated symbols or codes is its exact inverse. */
  lemma InvertIsInverse(t: seq<(Symbol, int)>, s: Symbol, c: int)
    requires DistinctSymbols(t) && DistinctCodes(t)
    ensures CodeOf(t, s) == Some(c) <==> c in Invert(t) && Invert(t)[c] == s
  {
    if CodeOf(t, s) == Some(c) {
      var i := CodeOfSound(t, s, c);
      InvertFinds(t, i);
    }
    if c in Invert(t) && Invert(t)[c] == s {
      InvertDomain(t, c);
      var i :| 0 <= i < |t| && t[i].1 == c;
      InvertFinds(t, i);
      CodeOfFinds(t, i);
    }
  }

  /** CODE_TYPES is the exact inverse of TYPE_CODES. */
  lemma TypeCodesInverse(s: Symbol, c: int)
    ensures CodeOf(TypeCodes, s) == Some(c) <==> TypeOfCode(c) == Some(s)
  {
    TypeCodesDistinct();
    InvertIsInverse(TypeCodes, s, c);
    CodeTypesLookup(c);
  }

  /** A code outside TYPE_CODES has type nil in CODE_TYPES. */
  lemma UnknownCodes(c: int)
    ensures TypeOfCode(c) == None <==> forall i :: 0 <= i < |TypeCodes| ==> TypeCodes[i].1 != c
  {
    InvertDomain(TypeCodes, c);
    CodeTypesLookup(c);
  }

  /** Every symbol but the unlisted ones has a code; the unlisted ones have none. */
  lemma ListedSymbols(s: Symbol)
    ensures CodeOf(TypeCodes, s).Some? <==> s != UnlistedSymbol
  {
    var t := TypeCodes;
    if s == UnlistedSymbol {
      CodeOfMissing(t, s);
    } else {
      var i := if s == AckFailure then 0 else if s == Run then 1 else if s == DiscardAll then 2
        else if s == PullAll then 3 else if s == Success then 4 else if s == Item then 5
        else if s == Ignored then 6 else 7;
      assert t[i].0 == s;
      TypeCodesDistinct();
      CodeOfFinds(t, i);
    }
  }

  // ---------------------------------------------------------------------
  // Message.new
  // ---------------------------------------------------------------------

  /**
   * `Message.new` fails with 'Invalid message type' exactly for an object
   * that is neither an Integer nor a symbol of TYPE_CODES. An Integer is
   * the code as it is; a symbol of the table gives that symbol as the
   * type and TYPE_CODES[s] as the code.
   */
  lemma NewMessageCases(t: TypeOrCode, correlationId: Value, args: seq<Value>)
    ensures NewMessage(t, correlationId, args).Failed? <==> t.OtherObject? || t == Sym(UnlistedSymbol)
    ensures NewMessage(t, correlationId, args).Failed? ==> NewMessage(t, correlationId, args).error == InvalidMessageType
    ensures NewMessage(t, correlationId, args).Ok? ==>
      var m := NewMessage(t, correlationId, args).value;
      m.correlationId == correlationId && m.args == args
      && (t.Code? ==> m.typeCode == t.code)
      && (t.Sym? ==> m.msgType == Some(t.name) && CodeOf(TypeCodes, t.name) == Some(m.typeCode))
  {
    if t.Sym? {
      ListedSymbols(t.name);
      if t.name != UnlistedSymbol {
        var c := CodeOf(TypeCodes, t.name).value;
        TypeCodesInverse(t.name, c);
      }
    }
  }

  /** A message built from an Integer code is never refused, and is untyped exactly when the code is not in the table. */
  lemma CodeMessageUntyped(c: int, correlationId: Value, args: seq<Value>)
    ensures NewMessage(Code(c), correlationId, args).Ok?
    ensures NewMessage(Code(c), correlationId, args).value.msgType.None? <==>
      forall i :: 0 <= i < |TypeCodes| ==> TypeCodes[i].1 != c
  {
    UnknownCodes(c);
  }

  /** A message built from an Integer code has the type that TYPE_CODES pairs with the code. */
  lemma CodeMessageType(c: int, correlationId: Value, args: seq<Value>, s: Symbol)
    ensures NewMessage(Code(c), correlationId, args).value.msgType == Some(s) <==> CodeOf(TypeCodes, s) == Some(c)
  {
    TypeCodesInverse(s, c);
  }

  // ---------------------------------------------------------------------
  // struct and packed_stream
  // ---------------------------------------------------------------------

  /** A struct of fewer than 16 elements packs behind the tiny list marker 0x90 + 2 + |args|. */
  lemma MessageHeader(m: Message)
    requires |m.args| < 14 && JoinPacked(PackItems(Struct(m))).Stream?
    ensures MessageStream(m) == Stream([0x92 + |m.args|] + JoinPacked(PackItems(Struct(m))).bytes)
  {
    var s := Struct(m);
    var h := SmallHeaderIsHeader(0x90, 0xD4, |s|);
    ArrayStreamWithHeader(s, h);
  }

  /** The struct's elements in order: the type code, the correlation id, the arguments. */
  lemma StructBody(m: Message)
    requires 0 <= m.typeCode < 0x80
    requires Pack(m.correlationId).Stream? && JoinPacked(PackItems(m.args)).Stream?
    ensures JoinPacked(PackItems(Struct(m)))
         == Stream([m.typeCode] + Pack(m.correlationId).bytes + JoinPacked(PackItems(m.args)).bytes)
  {
    var s := Struct(m);
    var ps, qs := PackItems(s), PackItems(s[1..]);
    TinyIntPacks(m.typeCode);
    StructTail(m);
    PackItemsFirst(s);
    PackItemsFirst(s[1..]);
    JoinFirst(qs);
    JoinFirst(ps);
    Prepend2(m.typeCode, Pack(m.correlationId).bytes, JoinPacked(PackItems(m.args)).bytes);
  }

  /** The one packing fact about a tiny integer, without its decoding. */
  lemma TinyIntPacks(x: int)
    requires 0 <= x < 0x80
    ensures Pack(Int(x)) == Stream([x])
  {
    assert x % 256 == x;
    TinyIntEncoding(x);
  }

  /** A value in the round-trip domain packs without raising. */
  lemma SmallPacks(v: Value)
    requires Small(v)
    ensures Pack(v).Stream?
  {
    RoundTrip(v, []);
  }

  lemma Prepend2(x: int, c: seq<int>, a: seq<int>)
    ensures [x] + (c + a) == [x] + c + a
  {
  }

  lemma Prepend3(x: int, y: int, c: seq<int>, a: seq<int>)
    ensures [x] + ([y] + c + a) == [x, y] + c + a
  {
  }

  lemma StructTail(m: Message)
    ensures Struct(m)[0] == Int(m.typeCode) && Struct(m)[1..] == [m.correlationId] + m.args
    ensures Struct(m)[1..][0] == m.correlationId && Struct(m)[1..][1..] == m.args
  {
  }

  /** A message with a small code and fewer than 14 arguments, byte by byte. */
  lemma MessageBytes(m: Message)
    requires 0 <= m.typeCode < 0x80 && |m.args| < 14
    requires Pack(m.correlationId).Stream? && JoinPacked(PackItems(m.args)).Stream?
    ensures MessageStream(m)
         == Stream([0x92 + |m.args|, m.typeCode] + Pack(m.correlationId).bytes + JoinPacked(PackItems(m.args)).bytes)
  {
    StructBody(m);
    MessageHeader(m);
    Prepend3(0x92 + |m.args|, m.typeCode, Pack(m.correlationId).bytes, JoinPacked(PackItems(m.args)).bytes);
  }

  lemma MessageStreamsConcat(ms: seq<Message>, ns: seq<Message>)
    ensures MessageStreams(ms + ns) == MessageStreams(ms) + MessageStreams(ns)
  {
    MessageStreamsElements(ms + ns);
    MessageStreamsElements(ms);
    MessageStreamsElements(ns);
  }

  lemma {:induction false} MessageStreamsElements(ms: seq<Message>)
    ensures forall i :: 0 <= i < |ms| ==> MessageStreams(ms)[i] == MessageStream(ms[i])
    decreases |ms|
  {
    if ms != [] {
      MessageStreamsElements(ms[1..]);
    }
  }

  /** `Array#join` of two parts that both join to streams. */
  lemma {:induction false} JoinConcat(ps: seq<Packed>, qs: seq<Packed>)
    requires JoinPacked(ps).Stream? && JoinPacked(qs).Stream?
    ensures JoinPacked(ps + qs) == Stream(JoinPacked(ps).bytes + JoinPacked(qs).bytes)
    decreases |ps|
  {
    if ps == [] {
      assert ps + qs == qs;
    } else {
      assert (ps + qs)[1..] == ps[1..] + qs;
      JoinConcat(ps[1..], qs);
    }
  }

  /**
   * `Message.pack` (and so `Job#packed_stream`) concatenates the
   * encodings in insertion order: packing two runs of messages gives the
   * first run's bytes followed by the second's.
   */
  lemma PackMessagesConcat(ms: seq<Message>, ns: seq<Message>)
    requires PackMessages(ms).Stream? && PackMessages(ns).Stream?
    ensures PackMessages(ms + ns) == Stream(PackMessages(ms).bytes + PackMessages(ns).bytes)
  {
    MessageStreamsConcat(ms, ns);
    JoinConcat(MessageStreams(ms), MessageStreams(ns));
  }

  /** One message packs to its own stream. */
  lemma PackOneMessage(m: Message)
    requires MessageStream(m).Stream?
    ensures PackMessages([m]) == MessageStream(m)
  {
    var p := MessageStream(m);
    assert [m][1..] == [];
    assert MessageStreams([m]) == [p];
    assert [p][1..] == [];
    assert JoinPacked([p][1..]) == Stream([]);
    assert JoinPacked([p]) == Stream(p.bytes + []);
    assert p.bytes + [] == p.bytes;
  }

  lemma PackTwoItems(a: Value, b: Value)
    requires Pack(a).Stream? && Pack(b).Stream?
    ensures JoinPacked(PackItems([a, b])) == Stream(Pack(a).bytes + Pack(b).bytes)
  {
    var pa, pb := Pack(a), Pack(b);
    assert [a, b][1..] == [b];
    assert [b][1..] == [];
    assert PackItems([a, b]) == [pa, pb];
    assert [pa, pb][1..] == [pb];
    assert [pb][1..] == [];
    assert JoinPacked([pb]) == Stream(pb.bytes + []);
    assert pb.bytes + [] == pb.bytes;
  }

  // ---------------------------------------------------------------------
  // The query job
  // ---------------------------------------------------------------------

  /**
   * The bytes that `query` posts: RUN (0x10) with correlation id 1 and
   * the cypher text and parameters, then PULL_ALL (0x3F) with
   * correlation id 2 and no arguments.
   */
  lemma QueryRequestBytes(cypher: Value, params: Value)
    requires Pack(cypher).Stream? && Pack(params).Stream?
    ensures PackMessages([Message(0x10, Some(Run), Int(1), [cypher, params]), Message(0x3F, Some(PullAll), Int(2), [])])
         == Stream([0x94, 0x10, 0x01] + Pack(cypher).bytes + Pack(params).bytes + [0x92, 0x3F, 0x02])
  {
    var run := Message(0x10, Some(Run), Int(1), [cypher, params]);
    var pullAll := Message(0x3F, Some(PullAll), Int(2), []);
    RunBytes(cypher, params);
    PullAllBytes();
    PackOneMessage(run);
    PackOneMessage(pullAll);
    PackMessagesConcat([run], [pullAll]);
    assert [run] + [pullAll] == [run, pullAll];
  }

  lemma RunBytes(cypher: Value, params: Value)
    requires Pack(cypher).Stream? && Pack(params).Stream?
    ensures MessageStream(Message(0x10, Some(Run), Int(1), [cypher, params]))
         == Stream([0x94, 0x10, 0x01] + Pack(cypher).bytes + Pack(params).bytes)
  {
    TinyIntPacks(1);
    PackTwoItems(cypher, params);
    MessageBytes(Message(0x10, Some(Run), Int(1), [cypher, params]));
    HeaderThenTwo(0x94, 0x10, 0x01, Pack(cypher).bytes, Pack(params).bytes);
  }

  lemma HeaderThenTwo(a: int, b: int, x: int, c: seq<int>, p: seq<int>)
    ensures [a, b] + [x] + (c + p) == [a, b, x] + c + p
  {
  }

  lemma PullAllBytes()
    ensures MessageStream(Message(0x3F, Some(PullAll), Int(2), [])) == Stream([0x92, 0x3F, 0x02])
  {
    TinyIntPacks(2);
    MessageBytes(Message(0x3F, Some(PullAll), Int(2), []));
    HeaderThenTwo(0x92, 0x3F, 0x02, [], []);
  }

  /** `query` of a short cypher text with no parameters: the string header, the text, and an empty map. */
  lemma QueryTextBytes(b: seq<byte>)
    requires |b| < 0x10
    ensures PackMessages([Message(0x10, Some(Run), Int(1), [Text(b), Map([])]), Message(0x3F, Some(PullAll), Int(2), [])])
         == Stream([0x94, 0x10, 0x01, 0x80 + |b|] + b + [0xA0, 0x92, 0x3F, 0x02])
  {
    var h := SmallHeaderIsHeader(0x80, 0xD0, |b|);
    assert Pack(Text(b)) == Stream([0x80 + |b|] + b);
    var g := SmallHeaderIsHeader(0xA0, 0xD8, 0);
    PackMap([]);
    HashStreamParts([], g, []);
    assert Pack(Map([])) == Stream([0xA0]);
    QueryRequestBytes(Text(b), Map([]));
    assert [0x94, 0x10, 0x01] + ([0x80 + |b|] + b) + [0xA0] + [0x92, 0x3F, 0x02]
        == [0x94, 0x10, 0x01, 0x80 + |b|] + b + [0xA0, 0x92, 0x3F, 0x02];
  }

  // ---------------------------------------------------------------------
  // Message#value
  // ---------------------------------------------------------------------

  lemma {:induction false} InterpretAllElements(vs: seq<Value>)
    ensures forall i :: 0 <= i < |vs| ==> InterpretAll(vs)[i] == Interpret(vs[i])
    decreases |vs|
  {
    if vs != [] {
      InterpretAllElements(vs[1..]);
    }
  }

  /**
   * `interpret_field_value`: an Array whose first element is 1 becomes a
   * node hash of elements 1-3; one starting with 2 or 3 becomes nil;
   * anything else is returned unchanged.
   */
  lemma InterpretCases(v: Value)
    ensures v.List? && v.items != [] && v.items[0] == Int(1) ==>
      Interpret(v) == Node(Fetch(v.items, 1), Fetch(v.items, 2), Fetch(v.items, 3))
    ensures v.List? && v.items != [] && (v.items[0] == Int(2) || v.items[0] == Int(3)) ==> Interpret(v) == Plain(Null)
    ensures Interpret(v).Plain? && Interpret(v) != Plain(Null) ==> Interpret(v) == Plain(v)
    ensures !(v.List? && v.items != [] && v.items[0].Int? && 1 <= v.items[0].i <= 3) ==> Interpret(v) == Plain(v)
  {
  }

  /** In `Hash[names.zip(fields)]` a name finds the field at its LAST position. */
  lemma {:induction false} HashOfZipFinds(names: seq<Value>, fields: seq<Field>, j: nat)
    requires j < |names| && names[j] !in names[j + 1..]
    ensures Lookup(HashOfZip(names, fields), names[j]) == Some(FieldAt(fields, j))
    decreases |names|
  {
    var n := |names| - 1;
    var prefix := HashOfZip(names[..n], fields);
    PutStores(prefix, names[n], FieldAt(fields, n));
    if j < n {
      assert names[n] in names[j + 1..];
      assert names[..n][j] == names[j];
      assert names[..n][j + 1..] == names[j + 1..n];
      HashOfZipFinds(names[..n], fields, j);
    }
  }

  /** A name that is not among the field names finds nothing. */
  lemma {:induction false} HashOfZipMissing(names: seq<Value>, fields: seq<Field>, k: Value)
    requires k !in names
    ensures Lookup(HashOfZip(names, fields), k) == None
    decreases |names|
  {
    if names != [] {
      var n := |names| - 1;
      PutStores(HashOfZip(names[..n], fields), names[n], FieldAt(fields, n));
      assert k !in names[..n];
      HashOfZipMissing(names[..n], fields, k);
    }
  }

  /**
   * One record of `value`: for an argument `[_, names, values, ...]`,
   * each field name gives the interpreted value at the same position
   * (nil when the values run out; the last one when a name repeats), and
   * any other name gives nothing.
   */
  lemma RecordFields(items: seq<Value>, names: seq<Value>, vals: seq<Value>)
    requires Fetch(items, 1) == List(names) && Fetch(items, 2) == List(vals)
    ensures RecordOf(List(items)).Ok?
    ensures forall j :: 0 <= j < |names| && names[j] !in names[j + 1..] ==>
      Lookup(RecordOf(List(items)).value, names[j]) == Some(if j < |vals| then Interpret(vals[j]) else Plain(Null))
    ensures forall k :: k !in names ==> Lookup(RecordOf(List(items)).value, k) == None
  {
    var fs := InterpretAll(vals);
    InterpretAllElements(vals);
    forall j | 0 <= j < |names| && names[j] !in names[j + 1..]
      ensures Lookup(HashOfZip(names, fs), names[j]) == Some(if j < |vals| then Interpret(vals[j]) else Plain(Null))
    {
      HashOfZipFinds(names, fs, j);
    }
    forall k | k !in names
      ensures Lookup(HashOfZip(names, fs), k) == None
    {
      HashOfZipMissing(names, fs, k);
    }
  }

  lemma {:induction false} RecordsOfElements(args: seq<Value>)
    ensures RecordsOf(args).Ok? <==> forall i :: 0 <= i < |args| ==> RecordOf(args[i]).Ok?
    ensures RecordsOf(args).Ok? ==>
      |RecordsOf(args).value| == |args|
      && forall i :: 0 <= i < |args| ==> RecordsOf(args).value[i] == RecordOf(args[i]).value
    decreases |args|
  {
    if args != [] {
      RecordsOfElements(args[1..]);
      assert forall i :: 0 < i < |args| ==> args[1..][i - 1] == args[i];
    }
  }

  /**
   * `Message#value`: nil unless the type is :item; for an item, one
   * record per argument, in order, and it raises exactly when one of the
   * arguments' records does.
   */
  lemma ItemValue(m: Message)
    ensures m.msgType != Some(Item) ==> MessageValue(m) == Ok(None)
    ensures m.msgType == Some(Item) ==>
      (MessageValue(m).Ok? <==> forall i :: 0 <= i < |m.args| ==> RecordOf(m.args[i]).Ok?)
    ensures m.msgType == Some(Item) && MessageValue(m).Ok? ==>
      MessageValue(m).value.Some? && |MessageValue(m).value.value| == |m.args|
      && forall i :: 0 <= i < |m.args| ==> MessageValue(m).value.value[i] == RecordOf(m.args[i]).value
  {
    RecordsOfElements(m.args);
  }

  lemma {:induction false} ValuesOfElements(ms: seq<Message>)
    ensures ValuesOf(ms).Ok? <==> forall i :: 0 <= i < |ms| ==> MessageValue(ms[i]).Ok?
    ensures ValuesOf(ms).Ok? ==>
      |ValuesOf(ms).value| == |ms|
      && forall i :: 0 <= i < |ms| ==> ValuesOf(ms).value[i] == MessageValue(ms[i]).value
    decreases |ms|
  {
    if ms != [] {
      ValuesOfElements(ms[1..]);
      assert forall i :: 0 < i < |ms| ==> ms[1..][i - 1] == ms[i];
    }
  }

  /** `query` returns one value per response message, in order. */
  lemma QueryResultsOfMessages(body: seq<byte>)
    ensures QueryResults(body).Ok? <==>
      DecodedMessages(body).Ok? && forall i :: 0 <= i < |DecodedMessages(body).value| ==> MessageValue(DecodedMessages(body).value[i]).Ok?
    ensures QueryResults(body).Ok? ==>
      var ms := DecodedMessages(body).value;
      |QueryResults(body).value| == |ms|
      && forall i :: 0 <= i < |ms| ==> QueryResults(body).value[i] == MessageValue(ms[i]).value
  {
    if DecodedMessages(body).Ok? {
      ValuesOfElements(DecodedMessages(body).value);
    }
  }

  // ---------------------------------------------------------------------
  // response_messages
  // ---------------------------------------------------------------------

  /**
   * A message as the server sends it: a small code, the type CODE_TYPES
   * gives that code, and one argument (`response_messages` always builds
   * `[result]`), with correlation id and argument inside the round-trip
   * domain of the codec.
   */
  predicate Responsive(m: Message)
  {
    0 <= m.typeCode < 0x80 && m.msgType == TypeOfCode(m.typeCode) && |m.args| == 1
    && Small(m.correlationId) && Small(m.args[0])
  }

  lemma DecodedMessagesStep(s: seq<byte>, v: Value, rest: seq<byte>, m: Message)
    requires s != [] && Decode(s) == Decoded(v, rest) && MessageOfData(v) == Ok(m)
    ensures DecodedMessages(s) == Prefixed([m], DecodedMessages(rest))
  {
  }

  /** A server message decodes back to its struct, and the struct rebuilds the message. */
  lemma MessageRoundTrip(m: Message, rest: seq<byte>)
    requires Responsive(m)
    ensures MessageStream(m).Stream? && MessageStream(m).bytes != []
    ensures Decode(MessageStream(m).bytes + rest) == Decoded(List(Struct(m)), rest)
    ensures MessageOfData(List(Struct(m))) == Ok(m)
  {
    SmallStruct(m);
    RoundTrip(List(Struct(m)), rest);
    assert |MessageStream(m).bytes + rest| > |rest|;
    StructRebuildsMessage(m);
  }

  lemma SmallStruct(m: Message)
    requires 0 <= m.typeCode < 0x80 && |m.args| == 1 && Small(m.correlationId) && Small(m.args[0])
    ensures Small(List(Struct(m)))
  {
    var s := [Int(m.typeCode), m.correlationId, m.args[0]];
    assert Struct(m) == s;
    forall i | 0 <= i < |s|
      ensures Small(s[i])
    {
      if i == 0 {
        assert Small(Int(m.typeCode));
      }
    }
  }

  lemma StructRebuildsMessage(m: Message)
    requires |m.args| == 1 && m.msgType == TypeOfCode(m.typeCode)
    ensures MessageOfData(List(Struct(m))) == Ok(m)
  {
    var a := m.args[0];
    assert m.args == [a];
    assert Struct(m) == [Int(m.typeCode), m.correlationId, a];
  }

  lemma {:induction false} MessageStreamsFirst(ms: seq<Message>)
    requires ms != []
    ensures MessageStreams(ms)[0] == MessageStream(ms[0]) && MessageStreams(ms)[1..] == MessageStreams(ms[1..])
  {
  }

  /**
   * `response_messages` undoes `Message.pack`: the body made of the
   * encodings of server messages decodes to exactly those messages, in
   * order.
   */
  lemma {:induction false} ResponseRoundTrip(ms: seq<Message>)
    requires forall i :: 0 <= i < |ms| ==> Responsive(ms[i])
    ensures PackMessages(ms).Stream?
    ensures DecodedMessages(PackMessages(ms).bytes) == Ok(ms)
    decreases |ms|
  {
    if ms != [] {
      TailResponsive(ms);
      ResponseRoundTrip(ms[1..]);
      ResponseRoundTripStep(ms);
    }
  }

  /**
   * Whatever follows the packed server messages `ms` in a body, those
   * messages come first in what `response_messages` returns, and an
   * error in the rest is the error of the whole.
   */
  lemma {:induction false} ResponsePrefix(ms: seq<Message>, t: seq<byte>)
    requires forall i :: 0 <= i < |ms| ==> Responsive(ms[i])
    ensures PackMessages(ms).Stream?
    ensures DecodedMessages(PackMessages(ms).bytes + t) == Prefixed(ms, DecodedMessages(t))
    decreases |ms|
  {
    if ms == [] {
      assert PackMessages(ms) == Stream([]);
      EmptyPrefix(t);
      PrefixedNothing(DecodedMessages(t));
    } else {
      TailResponsive(ms);
      ResponsePrefix(ms[1..], t);
      var rest := PackMessages(ms[1..]).bytes;
      MessageRoundTrip(ms[0], rest + t);
      MessageStreamsFirst(ms);
      JoinFirst(MessageStreams(ms));
      var b := MessageStream(ms[0]).bytes;
      Concat3(b, rest, t);
      DecodedMessagesStep(b + (rest + t), List(Struct(ms[0])), rest + t, ms[0]);
      PrefixedCons(ms, DecodedMessages(t));
    }
  }

  lemma PrefixedCons(ms: seq<Message>, r: Result<seq<Message>>)
    requires ms != []
    ensures Prefixed([ms[0]], Prefixed(ms[1..], r)) == Prefixed(ms, r)
  {
    if r.Ok? {
      assert [ms[0]] + (ms[1..] + r.value) == ms + r.value;
    }
  }

  lemma TailResponsive(ms: seq<Message>)
    requires ms != [] && forall i :: 0 <= i < |ms| ==> Responsive(ms[i])
    ensures Responsive(ms[0]) && forall i :: 0 <= i < |ms[1..]| ==> Responsive(ms[1..][i])
  {
    assert forall i :: 0 <= i < |ms[1..]| ==> ms[1..][i] == ms[i + 1];
  }

  /** One more message in front of a body that decodes. */
  lemma ResponseRoundTripStep(ms: seq<Message>)
    requires ms != [] && Responsive(ms[0])
    requires PackMessages(ms[1..]).Stream? && DecodedMessages(PackMessages(ms[1..]).bytes) == Ok(ms[1..])
    ensures PackMessages(ms).Stream?
    ensures DecodedMessages(PackMessages(ms).bytes) == Ok(ms)
  {
    var rest := PackMessages(ms[1..]).bytes;
    MessageRoundTrip(ms[0], rest);
    MessageStreamsFirst(ms);
    JoinFirst(MessageStreams(ms));
    var b := MessageStream(ms[0]).bytes;
    DecodedMessagesStep(b + rest, List(Struct(ms[0])), rest, ms[0]);
    ConsFirst(ms);
  }

  lemma ConsFirst(ms: seq<Message>)
    requires ms != []
    ensures [ms[0]] + ms[1..] == ms
  {
  }

  /** Every message that `response_messages` builds carries exactly one argument. */
  lemma {:induction false} ResponseArgs(s: seq<byte>)
    ensures DecodedMessages(s).Ok? ==>
      forall i :: 0 <= i < |DecodedMessages(s).value| ==> |DecodedMessages(s).value[i].args| == 1
    decreases |s|
  {
    if s != [] && Decode(s).Decoded? {
      ResponseArgs(Decode(s).rest);
    }
  }

  /** An empty body holds no messages. */
  lemma EmptyResponse()
    ensures DecodedMessages([]) == Ok([])
  {
  }

  /**
   * A bare tiny integer is a message with that code, the type CODE_TYPES
   * gives it, nil correlation id and `[nil]` as arguments.
   */
  lemma BareIntegerResponse(x: int)
    requires 0 <= x < 0x80
    ensures DecodedMessages([x]) == Ok([Message(x, TypeOfCode(x), Null, [Null])])
  {
    TinyIntRoundTrip(x, []);
    var m := Message(x, TypeOfCode(x), Null, [Null]);
    assert MessageOfData(Int(x)) == Ok(m);
    assert [x] + [] == [x];
    DecodedMessagesStep([x], Int(x), [], m);
    assert [m] + [] == [m];
  }

  /**
   * A value whose type-code position is not an Integer (nil, a boolean,
   * a String, a Hash, or an Array whose first element is one of those)
   * is no message type: a decoded value is never a Symbol, so
   * `Message.new` fails, after any number of well-formed messages.
   */
  lemma NilResponse(ms: seq<Message>, s: seq<byte>)
    requires forall i :: 0 <= i < |ms| ==> Responsive(ms[i])
    requires Decode(s).Decoded?
    requires var v := Decode(s).value; !(if v.List? then Fetch(v.items, 0) else v).Int?
    ensures PackMessages(ms).Stream?
    ensures DecodedMessages(PackMessages(ms).bytes + s) == Failed(InvalidMessageType)
  {
    ResponsePrefix(ms, s);
  }

  /** A body that ends inside a value raises, after any number of well-formed messages. */
  lemma TruncatedResponse(ms: seq<Message>, t: seq<byte>)
    requires forall i :: 0 <= i < |ms| ==> Responsive(ms[i])
    requires t != [] && Decode(t).Exhausted?
    ensures PackMessages(ms).Stream?
    ensures DecodedMessages(PackMessages(ms).bytes + t) == Failed(StreamExhausted)
  {
    ResponsePrefix(ms, t);
  }

  /** An :item message with a tiny correlation id and one argument. */
  lemma ItemResponse(cid: int, a: Value)
    requires 0 <= cid < 0x80 && Small(a)
    ensures Pack(a).Stream?
    ensures DecodedMessages([0x93, 0x71, cid] + Pack(a).bytes) == Ok([Message(0x71, Some(Item), Int(cid), [a])])
  {
    var m := Message(0x71, Some(Item), Int(cid), [a]);
    ItemResponsive(cid, a);
    ResponseRoundTrip([m]);
    ItemBytes(cid, a);
    PackOneMessage(m);
  }

  lemma ItemResponsive(cid: int, a: Value)
    requires 0 <= cid < 0x80 && Small(a)
    ensures Responsive(Message(0x71, Some(Item), Int(cid), [a]))
  {
    ItemType();
  }

  lemma ItemType()
    ensures TypeOfCode(0x71) == Some(Item)
  {
    TableItem();
    TypeCodesInverse(Item, 0x71);
  }

  lemma ItemBytes(cid: int, a: Value)
    requires 0 <= cid < 0x80 && Small(a)
    ensures Pack(a).Stream?
    ensures MessageStream(Message(0x71, Some(Item), Int(cid), [a])) == Stream([0x93, 0x71, cid] + Pack(a).bytes)
  {
    var m := Message(0x71, Some(Item), Int(cid), [a]);
    SmallPacks(a);
    TinyIntPacks(cid);
    PackOneItem(a);
    MessageBytes(m);
    HeaderThenTwo(0x93, 0x71, cid, Pack(a).bytes, []);
    assert Pack(a).bytes + [] == Pack(a).bytes;
  }

  lemma PackOneItem(a: Value)
    requires Pack(a).Stream?
    ensures JoinPacked(PackItems([a])) == Stream(Pack(a).bytes)
  {
    var pa := Pack(a);
    assert [a][1..] == [];
    assert PackItems([a]) == [pa];
    assert [pa][1..] == [];
    assert pa.bytes + [] == pa.bytes;
  }

  lemma TableItem()
    ensures CodeOf(TypeCodes, Item) == Some(0x71)
  {
    assert TypeCodes[5] == (Item, 0x71);
    TypeCodesDistinct();
    CodeOfFinds(TypeCodes, 5);
  }
}
