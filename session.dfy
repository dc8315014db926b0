/**
 * The message layer of lib/session.rb: `Session::Message` (the type-code
 * tables, construction, `struct`, `packed_stream`, `value`,
 * `interpret_field_value`, `Message.pack`), `Session::Job`, the two
 * messages that `Session#query` sends and `Session#response_messages`,
 * which decodes a response body value after value.
 *
 * An exception raised on the way is the `Failed` case of `Result`.
 */
module Session {
  import opened PackStream
  import PackStreamUnpacker

  /**
   * A Ruby Symbol: the eight keys of TYPE_CODES, and one constructor for
   * every other symbol, which all behave alike here (TYPE_CODES has no
   * entry for them).
   */
  datatype Symbol =
    | AckFailure | Run | DiscardAll | PullAll
    | Success | Item | Ignored | Failure
    | UnlistedSymbol

  /**
   * Why a message operation raises: `fail 'Invalid message type'`, the
   * NoMethodError that `nil.bytes` gives once the response stream is
   * exhausted, a NoMethodError for a receiver without the method
   * (`nil[1]`, `true[1]`, `5.map`, `'a'.zip`), or a receiver whose `[]`,
   * `map` or `zip` this model does not compute (a String or an Integer
   * under `[]`, a Hash under `map` or `zip`).
   */
  datatype Error = InvalidMessageType | StreamExhausted | NoMethod | Unmodelled

  datatype Result<T> = Ok(value: T) | Failed(error: Error)

  // ---------------------------------------------------------------------
  // TYPE_CODES and CODE_TYPES
  // ---------------------------------------------------------------------

  /** TYPE_CODES, in the order of its literal. */
  const TypeCodes: seq<(Symbol, int)> := [
    (AckFailure, 0x0F), (Run, 0x10), (DiscardAll, 0x2F), (PullAll, 0x3F),
    (Success, 0x70), (Item, 0x71), (Ignored, 0x7E), (Failure, 0x7F)]

  /** `TYPE_CODES[s]`: the code of the first entry with key `s`. */
  function CodeOf(table: seq<(Symbol, int)>, s: Symbol): Option<int>
  {
    if table == [] then None
    else if table[0].0 == s then Some(table[0].1)
    else CodeOf(table[1..], s)
  }

  /** `Hash#invert`: every pair stored with key and value swapped, a later pair overwriting an earlier one. */
  function Invert(table: seq<(Symbol, int)>): map<int, Symbol>
  {
    if table == [] then map[]
    else map[table[0].1 := table[0].0] + Invert(table[1..])
  }

  /** CODE_TYPES. */
  function CodeTypes(): map<int, Symbol>
  {
    Invert(TypeCodes)
  }

  /** `CODE_TYPES[code]`: nil for a code that is not in the table (see CodeTypesLookup). */
  function TypeOfCode(code: int): Option<Symbol>
  {
    LastSymbolOf(TypeCodes, code)
  }

  /** The symbol of the last entry of `table` with code `code`: the one `Hash#invert` keeps. */
  function LastSymbolOf(table: seq<(Symbol, int)>, code: int): Option<Symbol>
  {
    if table == [] then None
    else
      match LastSymbolOf(table[1..], code)
      case Some(s) => Some(s)
      case None => if table[0].1 == code then Some(table[0].0) else None
  }

  /** Looking a code up in the inverted table is the same as walking the table for its last entry. */
  lemma {:induction false} LastSymbolInverts(table: seq<(Symbol, int)>, code: int)
    ensures LastSymbolOf(table, code) == if code in Invert(table) then Some(Invert(table)[code]) else None
  {
    if table != [] {
      LastSymbolInverts(table[1..], code);
    }
  }

  /** `CODE_TYPES[code]` is a lookup in CODE_TYPES. */
  lemma CodeTypesLookup(code: int)
    ensures TypeOfCode(code) == if code in CodeTypes() then Some(CodeTypes()[code]) else None
  {
    LastSymbolInverts(TypeCodes, code);
  }

  // ---------------------------------------------------------------------
  // Message
  // ---------------------------------------------------------------------

  /** The first argument of `Message.new`: an Integer, a Symbol or any other object. */
  datatype TypeOrCode = Code(code: int) | Sym(name: Symbol) | OtherObject

  /** A `Session::Message`: its type code, its type symbol (nil when unknown), its correlation id and its arguments. */
  datatype Message = Message(typeCode: int, msgType: Option<Symbol>, correlationId: Value, args: seq<Value>)

  /** `Message.type_code_for`: an Integer as it is, anything else looked up in TYPE_CODES. */
  function TypeCodeFor(t: TypeOrCode): Option<int>
  {
    match t
    case Code(c) => Some(c)
    case Sym(s) => CodeOf(TypeCodes, s)
    case OtherObject => None
  }

  /** `Message.new`: the type code or symbol, a correlation id and any number of arguments. */
  function NewMessage(t: TypeOrCode, correlationId: Value, args: seq<Value>): Result<Message>
  {
    match TypeCodeFor(t)
    case None => Failed(InvalidMessageType)
    case Some(c) => Ok(Message(c, TypeOfCode(c), correlationId, args))
  }

  /** `Message#struct`: the type code, then the correlation id, then the arguments. */
  function Struct(m: Message): seq<Value>
  {
    [Int(m.typeCode), m.correlationId] + m.args
  }

  /** `Message#packed_stream`: the struct packed as a list (a frozen Array is still an Array). */
  function MessageStream(m: Message): Packed
  {
    Pack(List(Struct(m)))
  }

  function MessageStreams(ms: seq<Message>): (ps: seq<Packed>)
    ensures |ps| == |ms|
  {
    if ms == [] then [] else [MessageStream(ms[0])] + MessageStreams(ms[1..])
  }

  /** `Message.pack(messages)`: the messages' streams joined in order. */
  function PackMessages(ms: seq<Message>): Packed
  {
    JoinPacked(MessageStreams(ms))
  }

  // ---------------------------------------------------------------------
  // Message#value and interpret_field_value
  // ---------------------------------------------------------------------

  /**
   * A field value after `interpret_field_value`: a decoded value, or the
   * node Hash of type :node with its identity, labels and properties.
   */
  datatype Field = Plain(v: Value) | Node(identity: Value, labels: Value, properties: Value)

  /** One record of `value`: the field names paired with the field values, as a Hash. */
  type Record = seq<Entry<Field>>

  /** `array[i]`: nil past the end. */
  function Fetch(items: seq<Value>, i: nat): Value
  {
    if i < |items| then items[i] else Null
  }

  /** `Message.interpret_field_value`: arrays are told apart by their first element. */
  function Interpret(v: Value): Field
  {
    if v.List? && v.items != [] && v.items[0].Int? && 1 <= v.items[0].i <= 3 then
      if v.items[0].i == 1 then Node(Fetch(v.items, 1), Fetch(v.items, 2), Fetch(v.items, 3))
      else Plain(Null)
    else Plain(v)
  }

  /** Every field value of a record passed through `interpret_field_value`, in order. */
  function InterpretAll(vs: seq<Value>): (fs: seq<Field>)
    ensures |fs| == |vs|
  {
    if vs == [] then [] else [Interpret(vs[0])] + InterpretAll(vs[1..])
  }

  /** The `j`-th element of `zip`'s second column: nil once the values run out. */
  function FieldAt(fields: seq<Field>, j: nat): Field
  {
    if j < |fields| then fields[j] else Plain(Null)
  }

  /** `Hash[names.zip(fields)]`: the pairs stored in order, a repeated name taking the later value. */
  function HashOfZip(names: seq<Value>, fields: seq<Field>): Record
    decreases |names|
  {
    if names == [] then []
    else
      var n := |names| - 1;
      Put(HashOfZip(names[..n], fields), names[n], FieldAt(fields, n))
  }

  /**
   * `arg[i]` on an Array or a Hash. nil, true and false have no `[]`;
   * a String or an Integer receiver is outside this model.
   */
  function Element(arg: Value, i: nat): Result<Value>
  {
    match arg
    case Null | Bool(_) => Failed(NoMethod)
    case List(items) => Ok(Fetch(items, i))
    case Map(es) => Ok(match Lookup(es, Int(i)) case Some(v) => v case None => Null)
    case _ => Failed(Unmodelled)
  }

  /**
   * A receiver whose `map` and `zip` this model does not compute: a Hash
   * has both, but they walk its pairs; an object the codec does not
   * represent is unknown. nil, booleans, Integers and Strings have
   * neither method, so calling one raises NoMethodError.
   */
  predicate BeyondModel(v: Value)
  {
    v.Map? || v.Unsupported?
  }

  /** The block of `Message#value` for one argument `arg`. */
  function RecordOf(arg: Value): Result<Record>
  {
    match Element(arg, 1)
    case Failed(e) => Failed(e)
    case Ok(names) =>
      match Element(arg, 2)
      case Failed(e) => Failed(e)
      case Ok(values) =>
        if !values.List? then Failed(if BeyondModel(values) then Unmodelled else NoMethod)
        else if !names.List? then Failed(if BeyondModel(names) then Unmodelled else NoMethod)
        else Ok(HashOfZip(names.items, InterpretAll(values.items)))
  }

  /** One record per argument, in order; the first argument that raises stops `value`. */
  function RecordsOf(args: seq<Value>): Result<seq<Record>>
  {
    if args == [] then Ok([])
    else
      match RecordOf(args[0])
      case Failed(e) => Failed(e)
      case Ok(r) =>
        match RecordsOf(args[1..])
        case Failed(e) => Failed(e)
        case Ok(rs) => Ok([r] + rs)
  }

  /** `Message#value`: nil unless the message is an item, else one record per argument. */
  function MessageValue(m: Message): Result<Option<seq<Record>>>
  {
    if m.msgType != Some(Item) then Ok(None)
    else
      match RecordsOf(m.args)
      case Failed(e) => Failed(e)
      case Ok(rs) => Ok(Some(rs))
  }

  // ---------------------------------------------------------------------
  // Job
  // ---------------------------------------------------------------------

  /** `Session::Job`: the messages to send, in the order they were added. */
  class Job {
    var messages: seq<Message>

    constructor ()
      ensures messages == []
    {
      messages := [];
    }

    /**
     * `add_message`: `Message.new` raises
     * before anything is appended; otherwise exactly one message is
     * appended. Returns the outcome of `Message.new`.
     */
    method AddMessage(t: TypeOrCode, correlationId: Value, args: seq<Value>) returns (r: Result<Message>)
      modifies this
      ensures r == NewMessage(t, correlationId, args)
      ensures messages == if r.Ok? then old(messages) + [r.value] else old(messages)
    {
      r := NewMessage(t, correlationId, args);
      if r.Ok? {
        messages := messages + [r.value];
      }
    }

    /** `Job#packed_stream`. */
    function PackedStream(): Packed
      reads this
    {
      PackMessages(messages)
    }
  }

  /** The job that `Session#query(cypher, params)` builds before posting it. */
  method QueryJob(cypher: Value, params: Value) returns (job: Job)
    ensures fresh(job)
    ensures job.messages == [Message(0x10, Some(Run), Int(1), [cypher, params]),
                             Message(0x3F, Some(PullAll), Int(2), [])]
  {
    job := new Job();
    var first, second := QueryMessages(cypher, params);
    var run := job.AddMessage(Sym(Run), Int(1), [cypher, params]);
    MessagesAppended([], first, job.messages);
    var pullAll := job.AddMessage(Sym(PullAll), Int(2), []);
    MessagesAppended([first], second, job.messages);
  }

  lemma MessagesAppended(ms: seq<Message>, m: Message, ms': seq<Message>)
    requires ms' == ms + [m]
    ensures |ms'| == |ms| + 1 && ms'[|ms|] == m && ms'[..|ms|] == ms
  {
  }

  /** The two messages of the query job, as `Message.new` builds them. */
  lemma QueryMessages(cypher: Value, params: Value) returns (first: Message, second: Message)
    ensures first == Message(0x10, Some(Run), Int(1), [cypher, params])
    ensures second == Message(0x3F, Some(PullAll), Int(2), [])
    ensures NewMessage(Sym(Run), Int(1), [cypher, params]) == Ok(first)
    ensures NewMessage(Sym(PullAll), Int(2), []) == Ok(second)
  {
    first, second := Message(0x10, Some(Run), Int(1), [cypher, params]), Message(0x3F, Some(PullAll), Int(2), []);
    TableEntries();
  }

  /** The entries of TYPE_CODES and CODE_TYPES that the query job uses. */
  lemma TableEntries()
    ensures CodeOf(TypeCodes, Run) == Some(0x10) && TypeOfCode(0x10) == Some(Run)
    ensures CodeOf(TypeCodes, PullAll) == Some(0x3F) && TypeOfCode(0x3F) == Some(PullAll)
  {
    TypeCodesDistinct();
    assert TypeCodes[1] == (Run, 0x10) && TypeCodes[3] == (PullAll, 0x3F);
    CodeOfFinds(TypeCodes, 1);
    InvertFinds(TypeCodes, 1);
    CodeTypesLookup(0x10);
    CodeOfFinds(TypeCodes, 3);
    InvertFinds(TypeCodes, 3);
    CodeTypesLookup(0x3F);
  }

  predicate DistinctSymbols(t: seq<(Symbol, int)>)
  {
    forall i, j :: 0 <= i < j < |t| ==> t[i].0 != t[j].0
  }

  predicate DistinctCodes(t: seq<(Symbol, int)>)
  {
    forall i, j :: 0 <= i < j < |t| ==> t[i].1 != t[j].1
  }

  /** No symbol and no code occurs twice in TYPE_CODES. */
  lemma TypeCodesDistinct()
    ensures DistinctSymbols(TypeCodes) && DistinctCodes(TypeCodes)
  {
    var t := TypeCodes;
    forall i, j | 0 <= i < j < |t|
      ensures t[i].0 != t[j].0 && t[i].1 < t[j].1
    {
    }
  }

  /** `TYPE_CODES[s]` finds the code of every symbol of a table without repeated symbols. */
  lemma {:induction false} CodeOfFinds(t: seq<(Symbol, int)>, i: nat)
    requires DistinctSymbols(t) && i < |t|
    ensures CodeOf(t, t[i].0) == Some(t[i].1)
    decreases i
  {
    if i > 0 {
      assert t[0].0 != t[i].0;
      assert t[1..][i - 1] == t[i];
      CodeOfFinds(t[1..], i - 1);
    }
  }

  /** The codes of the inverted table are exactly the codes of the table. */
  lemma {:induction false} InvertDomain(t: seq<(Symbol, int)>, c: int)
    ensures c in Invert(t) <==> exists i :: 0 <= i < |t| && t[i].1 == c
    decreases |t|
  {
    if t != [] {
      InvertDomain(t[1..], c);
      if exists i :: 0 <= i < |t[1..]| && t[1..][i].1 == c {
        var i :| 0 <= i < |t[1..]| && t[1..][i].1 == c;
        assert t[i + 1].1 == c;
      }
      if exists i :: 0 <= i < |t| && t[i].1 == c {
        var i :| 0 <= i < |t| && t[i].1 == c;
        if i > 0 {
          assert t[1..][i - 1].1 == c;
        }
      }
    }
  }

  /** Inverting a table without repeated codes maps every code back to its symbol. */
  lemma {:induction false} InvertFinds(t: seq<(Symbol, int)>, i: nat)
    requires DistinctCodes(t) && i < |t|
    ensures t[i].1 in Invert(t) && Invert(t)[t[i].1] == t[i].0
    decreases i
  {
    if i > 0 {
      assert t[1..][i - 1] == t[i];
      DistinctCodesTail(t, i);
      InvertFinds(t[1..], i - 1);
    } else {
      forall j | 0 <= j < |t[1..]|
        ensures t[1..][j].1 != t[0].1
      {
        assert t[1..][j] == t[j + 1];
      }
      InvertDomain(t[1..], t[0].1);
    }
  }

  lemma DistinctCodesTail(t: seq<(Symbol, int)>, i: nat)
    requires DistinctCodes(t) && 0 < i < |t|
    ensures DistinctCodes(t[1..])
  {
    forall a, b | 0 <= a < b < |t[1..]|
      ensures t[1..][a].1 != t[1..][b].1
    {
      assert t[1..][a] == t[a + 1] && t[1..][b] == t[b + 1];
    }
  }

  // ---------------------------------------------------------------------
  // response_messages
  // ---------------------------------------------------------------------

  /**
   * `type_code, correlation_id, result = data` followed by
   * `Message.new(type_code, correlation_id, result)`: an Array gives its
   * first three elements (nil past the end), any other value is the type
   * code itself with nil for the other two. A decoded value is never a
   * Symbol, so the type code must be an Integer.
   */
  function MessageOfData(data: Value): Result<Message>
  {
    var (typeCode, correlationId, result) :=
      if data.List? then (Fetch(data.items, 0), Fetch(data.items, 1), Fetch(data.items, 2))
      else (data, Null, Null);
    NewMessage(if typeCode.Int? then Code(typeCode.i) else OtherObject, correlationId, [result])
  }

  /** `ms` in front of the messages of `r`, or the error of `r`. */
  function Prefixed(ms: seq<Message>, r: Result<seq<Message>>): Result<seq<Message>>
  {
    match r
    case Ok(rest) => Ok(ms + rest)
    case Failed(e) => Failed(e)
  }

  /** What `response_messages` returns for the body `s`: one message per value, in order. */
  function DecodedMessages(s: seq<byte>): Result<seq<Message>>
    decreases |s|
  {
    if s == [] then Ok([])
    else
      match Decode(s)
      case Exhausted => Failed(StreamExhausted)
      case Decoded(v, rest) =>
        match MessageOfData(v)
        case Failed(e) => Failed(e)
        case Ok(m) => Prefixed([m], DecodedMessages(rest))
  }

  lemma PrefixedNothing(r: Result<seq<Message>>)
    ensures Prefixed([], r) == r
  {
    if r.Ok? {
      assert [] + r.value == r.value;
    }
  }

  lemma PrefixedTwice(ms: seq<Message>, m: Message, r: Result<seq<Message>>)
    ensures Prefixed(ms, Prefixed([m], r)) == Prefixed(ms + [m], r)
  {
    if r.Ok? {
      assert ms + ([m] + r.value) == (ms + [m]) + r.value;
    }
  }

  /**
   * `Session#response_messages(body)`. Every iteration of the Ruby loop
   * wraps the same StringIO in a new Unpacker; as an Unpacker holds no
   * state besides the stream, one cursor serves all of them here.
   */
  method ResponseMessages(body: seq<byte>) returns (r: Result<seq<Message>>)
    ensures r == DecodedMessages(body)
  {
    var stream := new PackStreamUnpacker.Unpacker(body);
    var messages: seq<Message> := [];
    assert stream.Remaining() == body;
    PrefixedNothing(DecodedMessages(body));
    while !stream.AtEof()
      invariant stream.Valid() && stream.data == body
      invariant DecodedMessages(body) == Prefixed(messages, DecodedMessages(stream.Remaining()))
      decreases |stream.data| - stream.pos
    {
      ghost var before := stream.Remaining();
      var data := stream.UnpackValue();
      if data.None? {
        return Failed(StreamExhausted);
      }
      var m := MessageOfData(data.value);
      if m.Failed? {
        return Failed(m.error);
      }
      PrefixedTwice(messages, m.value, DecodedMessages(stream.Remaining()));
      messages := messages + [m.value];
    }
    assert DecodedMessages(stream.Remaining()) == Ok([]);
    assert messages + [] == messages;
    r := Ok(messages);
  }

  /** `response_messages(response.body).map(&:value)`, the result of `Session#query`. */
  function QueryResults(body: seq<byte>): Result<seq<Option<seq<Record>>>>
  {
    match DecodedMessages(body)
    case Failed(e) => Failed(e)
    case Ok(ms) => ValuesOf(ms)
  }

  /** `messages.map(&:value)`: the first message whose value raises stops the map. */
  function ValuesOf(ms: seq<Message>): Result<seq<Option<seq<Record>>>>
  {
    if ms == [] then Ok([])
    else
      match MessageValue(ms[0])
      case Failed(e) => Failed(e)
      case Ok(v) =>
        match ValuesOf(ms[1..])
        case Failed(e) => Failed(e)
        case Ok(vs) => Ok([v] + vs)
  }
}
