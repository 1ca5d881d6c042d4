// The C code that C99Emitter.ex emits, as it runs: encoders that call the serializer field by field, decoders
// that move a child iterator and a one-child lookahead variable. Every method is proved against Schema.
module Generated {
  import opened Errors
  import opened Positional
  import opened Header
  import opened Reader
  import opened Machine
  import opened Tree
  import opened Structure
  import opened Rewrite
  import opened Types
  import opened Oid
  import opened Schema
  import opened Serializer
  import opened Parser
  import opened Calls

  // ---------------------------------------------------------------- decoders

  method DecodeNode(ty: Type, d: seq<byte>, result: ParseResult, i: nat) returns (r: Result<Value>)
    requires result.Valid() && Decodable(d, result.Stored()) && i < result.count
    ensures r == DecodeValue(ty, d, result.Stored(), i)
    decreases ty, 0
  {
    hide Decodable, Advance, ReadInt64, ReadOid;
    var node := result.nodes[i];
    assert node == result.Stored()[i];
    NodeIsValid(d, result.Stored(), i);
    match ty
    case Boolean =>
      var b :- ReadBoolean(d, node);
      r := Ok(VBool(b));
    case Integer =>
      var n :- ParseInt64(d, node);
      r := Ok(VInt(n));
    case OctetString =>
      var bytes :- ReadOctets(d, node);
      r := Ok(VOctets(bytes));
    case ObjectId =>
      var arcs :- ParseOid(d, node);
      r := Ok(VOid(arcs));
    case SeqOf(element) =>
      if !node.constructed { return Err(InvalidObject, 0); }
      var vs :- DecodeArray(element, d, result, i);
      r := Ok(VList(vs));
    case Seq(fields) =>
      if !node.constructed { return Err(InvalidObject, 0); }
      var vs :- DecodeStruct(fields, d, result, i);
      r := Ok(VStruct(vs));
  }

  lemma NodeIsValid(d: seq<byte>, ns: seq<Node>, i: nat)
    requires Decodable(d, ns) && i < |ns|
    ensures ValidNode(d, ns[i]) && 1 <= ns[i].subtreeSize <= |ns| - i
  {
  }

  // A loop that has collected "done" still has "rest" to collect.
  ghost predicate Collects<T>(spec: Result<seq<T>>, done: seq<T>, rest: Result<seq<T>>) {
    match rest
    case Ok(vs) => spec == Ok(done + vs)
    case Err(code, at) => spec == Err(code, at)
  }

  lemma CollectsOne<T>(spec: Result<seq<T>>, done: seq<T>, v: T, rest: Result<seq<T>>)
    requires Collects(spec, done, if rest.Ok? then Ok([v] + rest.value) else rest)
    ensures Collects(spec, done + [v], rest)
  {
    if rest.Ok? { assert done + ([v] + rest.value) == done + [v] + rest.value; }
  }

  lemma CollectsAll<T>(spec: Result<seq<T>>, done: seq<T>)
    ensures Collects(spec, [], spec)
    ensures Collects(spec, done, Ok([])) ==> spec == Ok(done)
  {
    assert done + [] == done;
    if spec.Ok? { assert [] + spec.value == spec.value; }
  }

  method DecodeArray(element: Type, d: seq<byte>, result: ParseResult, i: nat) returns (r: Result<seq<Value>>)
    requires result.Valid() && Decodable(d, result.Stored()) && i < result.count
    ensures var ns := result.Stored();
            r == DecodeElements(element, d, ns, i + 1, i + ns[i].subtreeSize, ns[i].depth, 0)
    decreases element, 1
  {
    hide Decodable, Advance, DecodeValue, Collects;
    ghost var ns := result.Stored();
    NodeIsValid(d, ns, i);
    assert result.nodes[i] == ns[i];
    var iter := new NodeIterator(result, i);
    var elements: seq<Value> := [];
    ghost var spec := DecodeElements(element, d, ns, iter.currentIndex, iter.endIndex, iter.parentDepth, 0);
    CollectsAll(spec, []);
    while true
      invariant iter.Valid() && fresh(iter) && result.Valid() && result.Stored() == ns
      invariant iter.result == result
      invariant Collects(spec, elements,
                         DecodeElements(element, d, ns, iter.currentIndex, iter.endIndex, iter.parentDepth, |elements|))
      decreases |ns| - iter.currentIndex
    {
      ghost var from := iter.currentIndex;
      var child := iter.NextChild();
      CollectsAll(spec, elements);
      if child.None? || |elements| >= MAX_ELEMENTS { return Ok(elements); }
      NodeIsValid(d, ns, child.value);
      var v := DecodeNode(element, d, result, child.value);
      ElementStep(spec, elements, element, d, ns, from, iter.endIndex, iter.parentDepth);
      if v.Err? { return Err(v.code, v.at); }
      elements := elements + [v.value];
    }
  }

  lemma ElementStep(spec: Result<seq<Value>>, done: seq<Value>, ty: Type, d: seq<byte>, ns: seq<Node>, current: nat,
                    end: nat, parentDepth: nat)
    requires Decodable(d, ns) && end <= |ns| && |done| < MAX_ELEMENTS && Advance(ns, current, end, parentDepth).0.Some?
    requires Collects(spec, done, DecodeElements(ty, d, ns, current, end, parentDepth, |done|))
    ensures var (child, next) := Advance(ns, current, end, parentDepth);
            match DecodeValue(ty, d, ns, child.value)
            case Err(code, at) => spec == Err(code, at)
            case Ok(v) => Collects(spec, done + [v], DecodeElements(ty, d, ns, next, end, parentDepth, |done| + 1))
  {
    hide Decodable, Advance, DecodeValue;
    var (child, next) := Advance(ns, current, end, parentDepth);
    var v := DecodeValue(ty, d, ns, child.value);
    if v.Ok? {
      var rest := DecodeElements(ty, d, ns, next, end, parentDepth, |done| + 1);
      CollectsOne(spec, done, v.value, rest);
    }
  }

  method DecodeStruct(fields: seq<Field>, d: seq<byte>, result: ParseResult,
                      i: nat) returns (r: Result<seq<Option<Value>>>)
    requires result.Valid() && Decodable(d, result.Stored()) && i < result.count
    ensures var ns := result.Stored();
            r == DecodeFields(fields, d, ns, i + 1, i + ns[i].subtreeSize, ns[i].depth, None)
    decreases fields, 1
  {
    hide Decodable, Advance, DecodeFields;
    NodeIsValid(d, result.Stored(), i);
    assert result.nodes[i] == result.Stored()[i];
    var iter := new NodeIterator(result, i);
    r := DecodeFieldList(fields, d, result, iter, None);
  }

  // The emitted blocks, one for each field; child is the variable that carries a fetched node from one to the next.
  method DecodeFieldList(fields: seq<Field>, d: seq<byte>, result: ParseResult, iter: NodeIterator,
                         pending: Option<nat>)
      returns (r: Result<seq<Option<Value>>>)
    requires result.Valid() && Decodable(d, result.Stored()) && iter.Valid() && iter.result == result
    requires pending.Some? ==> pending.value < result.count
    modifies iter
    ensures result.Valid() && result.Stored() == old(result.Stored())
    ensures r == DecodeFields(fields, d, result.Stored(), old(iter.currentIndex), iter.endIndex, iter.parentDepth,
                              pending)
    decreases fields, 0
  {
    hide Decodable, Advance, DecodeField, Matches;
    if fields == [] { return Ok([]); }
    var child := pending;
    if child.None? { child := iter.NextChild(); }
    if child.Some? && Matches(fields[0], result.nodes[child.value].id) {
      var v := DecodeOneField(fields[0], d, result, child.value);
      if v.Err? { return Err(v.code, v.at); }
      var vs := DecodeFieldList(fields[1..], d, result, iter, None);
      if vs.Err? { return vs; }
      r := Ok([Some(v.value)] + vs.value);
    } else if fields[0].optional {
      var vs := DecodeFieldList(fields[1..], d, result, iter, child);
      if vs.Err? { return vs; }
      r := Ok([None] + vs.value);
    } else if child.None? {
      r := Err(TruncatedField, 0);
    } else {
      r := Err(UnexpectedFieldType, 0);
    }
  }

  method DecodeOneField(f: Field, d: seq<byte>, result: ParseResult, i: nat) returns (r: Result<Value>)
    requires result.Valid() && Decodable(d, result.Stored()) && i < result.count
    ensures r == DecodeField(f, d, result.Stored(), i)
    decreases f, 0
  {
    hide Decodable, Advance, DecodeValue;
    if f.tag.None? {
      r := DecodeNode(f.ty, d, result, i);
    } else {
      NodeIsValid(d, result.Stored(), i);
      assert result.nodes[i] == result.Stored()[i];
      var subIter := new NodeIterator(result, i);
      var subChild := subIter.NextChild();
      if subChild.None? { return Err(TruncatedField, 0); }
      r := DecodeNode(f.ty, d, result, subChild.value);
    }
  }

  // ---------------------------------------------------------------- encoders

  // The tags of the schema are 32-bit constants of the emitted code.
  predicate TagsFit(ty: Type)
    decreases ty, 0
  {
    match ty
    case SeqOf(element) => TagsFit(element)
    case Seq(fields) => FieldTagsFit(fields)
    case _ => true
  }

  predicate FieldTagsFit(fs: seq<Field>)
    decreases fs, 0
  {
    fs != [] ==> FieldTagFits(fs[0]) && FieldTagsFit(fs[1..])
  }

  predicate FieldTagFits(f: Field)
    decreases f, 0
  {
    (f.tag.Some? ==> f.tag.value < TWO_TO_THE_32) && TagsFit(f.ty)
  }

  // What an encoder leaves behind: nothing before its output is touched; it is done exactly when the value has an
  // encoding and the capacity and the placeholders suffice, and then the encoding follows what was there.
  ghost predicate Wrote(s: Status, before: seq<byte>, after: seq<byte>, capacity: nat, r: Result<Tlv>) {
    match r
    case Ok(t) => Ran(s, before, after, capacity, Peak(CallOf(t)), Short(CallOf(t)), Image(CallOf(t)))
    case Err(_, _) => before <= after && s.Fault?
  }

  ghost predicate WroteRow(s: Status, before: seq<byte>, after: seq<byte>, capacity: nat, r: Result<seq<Tlv>>) {
    match r
    case Ok(ts) => Ran(s, before, after, capacity, PeakAll(CallsOf(ts)), AllShort(CallsOf(ts)), ImageAll(CallsOf(ts)))
    case Err(_, _) => before <= after && s.Fault?
  }

  function Row(t: Result<Tlv>, rest: Result<seq<Tlv>>): Result<seq<Tlv>> {
    if t.Err? then Err(t.code, t.at) else if rest.Err? then rest else Ok([t.value] + rest.value)
  }

  function Nest(id: Identifier, row: Result<seq<Tlv>>): Result<Tlv> {
    if row.Err? then Err(row.code, row.at) else Ok(Cons(id, row.value))
  }

  // A row fails with its first element, or goes on behind it.
  lemma RowFails(s: Status, before: seq<byte>, after: seq<byte>, capacity: nat, t: Result<Tlv>, rest: Result<seq<Tlv>>)
    requires s.Fault? && Wrote(s, before, after, capacity, t)
    ensures WroteRow(s, before, after, capacity, Row(t, rest))
  {
    hide Peak, Short, Image, CallOf;
    if t.Ok? && rest.Ok? { RowCalls(t.value, rest.value); }
  }

  lemma RowCalls(t: Tlv, ts: seq<Tlv>)
    ensures var cs := CallsOf([t] + ts);
            && PeakAll(cs) == Max(Peak(CallOf(t)), |Image(CallOf(t))| + PeakAll(CallsOf(ts)))
            && (AllShort(cs) <==> Short(CallOf(t)) && AllShort(CallsOf(ts)))
            && ImageAll(cs) == Image(CallOf(t)) + ImageAll(CallsOf(ts))
  {
    hide Peak, Short, Image, CallOf;
    assert ([t] + ts)[1..] == ts;
    var cs := CallsOf([t] + ts);
    assert cs[1..] == CallsOf(ts);
  }

  lemma RowContinues(s: Status, before: seq<byte>, mid: seq<byte>, after: seq<byte>, capacity: nat, t: Result<Tlv>,
                     rest: Result<seq<Tlv>>)
    requires |mid| <= capacity
    requires Wrote(Done, before, mid, capacity, t) && WroteRow(s, mid, after, capacity, rest)
    ensures WroteRow(s, before, after, capacity, Row(t, rest))
  {
    hide Peak, Short, Image, CallOf, PeakAll, AllShort, ImageAll, CallsOf;
    if t.Ok? && rest.Ok? {
      RowCalls(t.value, rest.value);
      var head, tail := Image(CallOf(t.value)), ImageAll(CallsOf(rest.value));
      assert before + head + tail == before + (head + tail);
    }
  }

  lemma EmptyRow(contents: seq<byte>, capacity: nat)
    requires |contents| <= capacity
    ensures WroteRow(Done, contents, contents, capacity, Ok([]))
  {
    assert contents + [] == contents;
  }

  method EncodeNode(w: Writer, ty: Type, v: Value) returns (s: Status)
    requires w.Valid() && w.buffer.Length < TWO_TO_THE_64 && WellTyped(ty, v) && TagsFit(ty)
    modifies w`length, w.buffer
    ensures w.Valid() && Wrote(s, old(w.Contents()), w.Contents(), w.buffer.Length, EncodeValue(ty, v))
    decreases ty, v, 1
  {
    hide Put, Peak, Short, Image, Ran, EncodeIdentifier, EncodeLength, Twos, WriteOid;
    ghost var before := w.Contents();
    match ty
    case Boolean =>
      PrimitivePieces(before, w.buffer.Length, ID_BOOLEAN, [if v.b then 0xFF else 0x00]);
      PrimitiveShort(ID_BOOLEAN, [if v.b then 0xFF else 0x00]);
      s := w.SerializePrimitive(ID_BOOLEAN, [if v.b then 0xFF else 0x00]);
    case Integer =>
      PrimitivePieces(before, w.buffer.Length, ID_INTEGER, Twos(v.i));
      PrimitiveShort(ID_INTEGER, Twos(v.i));
      IntegerTag();
      s := SerializeInt64(w, v.i);
    case OctetString =>
      PrimitivePieces(before, w.buffer.Length, ID_OCTET_STRING, v.bytes);
      PrimitiveShort(ID_OCTET_STRING, v.bytes);
      s := w.SerializePrimitive(ID_OCTET_STRING, v.bytes);
    case ObjectId =>
      if WriteOid(v.arcs).Ok? {
        PrimitivePieces(before, w.buffer.Length, ID_OID, WriteOid(v.arcs).value);
        PrimitiveShort(ID_OID, WriteOid(v.arcs).value);
      }
      s := SerializeOid(w, v.arcs);
    case SeqOf(element) =>
      s := EncodeArray(w, element, v.elements);
    case Seq(fields) =>
      s := EncodeStruct(w, fields, v.fields);
  }

  lemma PrimitiveShort(id: Identifier, data: seq<byte>)
    ensures Short(WritePrimitive(id, data))
  {
  }

  method EncodeStruct(w: Writer, fields: seq<Field>, vs: seq<Option<Value>>) returns (s: Status)
    requires w.Valid() && w.buffer.Length < TWO_TO_THE_64 && FieldsWellTyped(fields, vs) && FieldTagsFit(fields)
    modifies w`length, w.buffer
    ensures w.Valid()
    ensures Wrote(s, old(w.Contents()), w.Contents(), w.buffer.Length, Nest(ID_SEQUENCE, EncodeFields(fields, vs)))
    decreases fields, vs, 1
  {
    hide Put, Ran, EncodeIdentifier, EncodeLength, EncodeFields, FieldsWellTyped, FieldTagsFit, Wrote, WroteRow;
    ghost var before := w.Contents();
    ghost var row := EncodeFields(fields, vs);
    BeginPieces(before, w.buffer.Length, ID_SEQUENCE);
    var marker;
    s, marker := w.SerializeConstructedBegin(ID_SEQUENCE);
    NestBegins(s, before, w.Contents(), w.buffer.Length, ID_SEQUENCE, row);
    if s.Fault? { return; }
    ghost var begun := w.Contents();
    s := EncodeFieldList(w, fields, vs);
    NestEnds(s, before, begun, w.Contents(), w.buffer.Length, ID_SEQUENCE, row);
    if s.Fault? { return; }
    s := w.SerializeConstructedEnd(marker);
  }

  // After the placeholder.
  lemma NestBegins(s: Status, before: seq<byte>, after: seq<byte>, capacity: nat, id: Identifier, row: Result<seq<Tlv>>)
    requires Ran(s, before, after, capacity, |EncodeIdentifier(id, true)| + 5, true,
                 EncodeIdentifier(id, true) + PLACEHOLDER)
    ensures if s == Done then after == before + (EncodeIdentifier(id, true) + PLACEHOLDER)
            else Wrote(s, before, after, capacity, Nest(id, row))
  {
    hide Peak, Short, Image, EncodeIdentifier;
    if row.Ok? { BeginOutcome(s, before, after, capacity, id, CallsOf(row.value)); }
  }

  // After the contents: whatever closing the node does, it is what the node's specification asks for.
  lemma NestEnds(s: Status, before: seq<byte>, begun: seq<byte>, after: seq<byte>, capacity: nat, id: Identifier,
                 row: Result<seq<Tlv>>)
    requires begun == before + (EncodeIdentifier(id, true) + PLACEHOLDER) && WroteRow(s, begun, after, capacity, row)
    ensures s.Fault? ==> Wrote(s, before, after, capacity, Nest(id, row))
    ensures s == Done ==>
      var marker := |before| + |EncodeIdentifier(id, true)|;
      var content := after[marker + 5..];
      && marker + 5 <= |after| && before <= after
      && (|content| < TWO_TO_THE_32 ==>
            Wrote(Done, before, after[..marker] + EncodeLength(|content|) + content, capacity, Nest(id, row)))
      && (|content| >= TWO_TO_THE_32 ==>
            forall code, at :: Wrote(Fault(code, at), before, after, capacity, Nest(id, row)))
  {
    hide Peak, Short, Image, EncodeIdentifier, EncodeLength, PeakAll, AllShort, ImageAll, CallsOf;
    if row.Ok? {
      var body := CallsOf(row.value);
      BodyOutcome(s, before, begun, after, capacity, id, body);
      if s == Done {
        Closes(before, id, ImageAll(body), after);
        EndOutcome(before, capacity, id, body);
        assert before <= begun <= after;
        assert CallOf(Cons(id, row.value)) == WriteNested(id, body);
      }
    } else {
      assert before <= begun <= after;
    }
  }

  method EncodeFieldList(w: Writer, fields: seq<Field>, vs: seq<Option<Value>>) returns (s: Status)
    requires w.Valid() && w.buffer.Length < TWO_TO_THE_64 && FieldsWellTyped(fields, vs) && FieldTagsFit(fields)
    modifies w`length, w.buffer
    ensures w.Valid() && WroteRow(s, old(w.Contents()), w.Contents(), w.buffer.Length, EncodeFields(fields, vs))
    decreases fields, vs, 0
  {
    hide Wrote, WroteRow, EncodeField, WellTyped, TagsFit;
    ghost var before := w.Contents();
    s := Done;
    if fields == [] {
      EmptyRow(before, w.buffer.Length);
    } else if vs[0].Some? {
      ghost var t := EncodeField(fields[0], vs[0].value);
      ghost var rest := EncodeFields(fields[1..], vs[1..]);
      assert EncodeFields(fields, vs) == Row(t, rest);
      s := EncodeOneField(w, fields[0], vs[0].value);
      if s.Fault? {
        RowFails(s, before, w.Contents(), w.buffer.Length, t, rest);
        return;
      }
      ghost var mid := w.Contents();
      s := EncodeFieldList(w, fields[1..], vs[1..]);
      RowContinues(s, before, mid, w.Contents(), w.buffer.Length, t, rest);
    } else {
      s := EncodeFieldList(w, fields[1..], vs[1..]);
    }
  }

  method EncodeOneField(w: Writer, f: Field, v: Value) returns (s: Status)
    requires w.Valid() && w.buffer.Length < TWO_TO_THE_64 && FieldWellTyped(f, Some(v)) && FieldTagFits(f)
    modifies w`length, w.buffer
    ensures w.Valid() && Wrote(s, old(w.Contents()), w.Contents(), w.buffer.Length, EncodeField(f, v))
    decreases f, v, 2
  {
    hide Put, Ran, EncodeIdentifier, EncodeLength, EncodeValue, WellTyped, TagsFit, Wrote, WroteRow;
    if f.tag.None? {
      s := EncodeNode(w, f.ty, v);
    } else {
      var id := ContextTag(f.tag.value);
      ghost var before := w.Contents();
      ghost var t := EncodeValue(f.ty, v);
      ghost var row := Row(t, Ok([]));
      if t.Ok? { assert [t.value] + [] == [t.value]; }
      assert EncodeField(f, v) == Nest(id, row);
      BeginPieces(before, w.buffer.Length, id);
      var marker;
      s, marker := w.SerializeConstructedBegin(id);
      NestBegins(s, before, w.Contents(), w.buffer.Length, id, row);
      if s.Fault? { return; }
      ghost var begun := w.Contents();
      s := EncodeNode(w, f.ty, v);
      SingleRow(s, begun, w.Contents(), w.buffer.Length, t);
      NestEnds(s, before, begun, w.Contents(), w.buffer.Length, id, row);
      if s.Fault? { return; }
      s := w.SerializeConstructedEnd(marker);
    }
  }

  lemma SingleRow(s: Status, before: seq<byte>, after: seq<byte>, capacity: nat, t: Result<Tlv>)
    requires |after| <= capacity && Wrote(s, before, after, capacity, t)
    ensures WroteRow(s, before, after, capacity, Row(t, Ok([])))
  {
    hide Wrote, WroteRow;
    if s.Fault? {
      RowFails(s, before, after, capacity, t, Ok([]));
    } else {
      EmptyRow(after, capacity);
      RowContinues(s, before, after, after, capacity, t, Ok([]));
    }
  }

  // The loop over an array has written its first elements: whatever it does with the rest, it does with the whole.
  ghost predicate Writes(before: seq<byte>, contents: seq<byte>, capacity: nat, whole: Result<seq<Tlv>>,
                         rest: Result<seq<Tlv>>) {
    forall s, after :: WroteRow(s, contents, after, capacity, rest) ==> WroteRow(s, before, after, capacity, whole)
  }

  lemma WritesOne(before: seq<byte>, contents: seq<byte>, mid: seq<byte>, capacity: nat, whole: Result<seq<Tlv>>,
                  t: Result<Tlv>, rest: Result<seq<Tlv>>)
    requires |mid| <= capacity && Writes(before, contents, capacity, whole, Row(t, rest))
    requires Wrote(Done, contents, mid, capacity, t)
    ensures Writes(before, mid, capacity, whole, rest)
  {
    hide Wrote, WroteRow;
    forall s, after | WroteRow(s, mid, after, capacity, rest) ensures WroteRow(s, before, after, capacity, whole) {
      RowContinues(s, contents, mid, after, capacity, t, rest);
    }
  }

  method EncodeArray(w: Writer, element: Type, elements: seq<Value>) returns (s: Status)
    requires w.Valid() && w.buffer.Length < TWO_TO_THE_64 && AllWellTyped(element, elements) && TagsFit(element)
    modifies w`length, w.buffer
    ensures w.Valid()
    ensures Wrote(s, old(w.Contents()), w.Contents(), w.buffer.Length,
                  Nest(ID_SEQUENCE, EncodeElements(element, elements)))
    decreases element, elements, 3
  {
    hide Put, Ran, EncodeIdentifier, EncodeLength, EncodeElements, AllWellTyped, Wrote, WroteRow;
    ghost var before := w.Contents();
    ghost var row := EncodeElements(element, elements);
    BeginPieces(before, w.buffer.Length, ID_SEQUENCE);
    var marker;
    s, marker := w.SerializeConstructedBegin(ID_SEQUENCE);
    NestBegins(s, before, w.Contents(), w.buffer.Length, ID_SEQUENCE, row);
    if s.Fault? { return; }
    ghost var begun := w.Contents();
    s := EncodeLoop(w, element, elements);
    NestEnds(s, before, begun, w.Contents(), w.buffer.Length, ID_SEQUENCE, row);
    if s.Fault? { return; }
    s := w.SerializeConstructedEnd(marker);
  }

  method EncodeLoop(w: Writer, element: Type, elements: seq<Value>) returns (s: Status)
    requires w.Valid() && w.buffer.Length < TWO_TO_THE_64 && AllWellTyped(element, elements) && TagsFit(element)
    modifies w`length, w.buffer
    ensures w.Valid()
    ensures WroteRow(s, old(w.Contents()), w.Contents(), w.buffer.Length, EncodeElements(element, elements))
    decreases element, elements, 2
  {
    hide Wrote, WroteRow, EncodeValue, WellTyped, TagsFit, Writes;
    ghost var before := w.Contents();
    ghost var whole := EncodeElements(element, elements);
    assert elements[0..] == elements;
    WritesWhole(before, w.buffer.Length, whole);
    for i := 0 to |elements|
      invariant w.Valid() && AllWellTyped(element, elements[i..])
      invariant Writes(before, w.Contents(), w.buffer.Length, whole, EncodeElements(element, elements[i..]))
    {
      ghost var contents := w.Contents();
      ghost var t := EncodeValue(element, elements[i]);
      ghost var rest := EncodeElements(element, elements[i + 1..]);
      assert elements[i..][0] == elements[i] && elements[i..][1..] == elements[i + 1..];
      assert EncodeElements(element, elements[i..]) == Row(t, rest);
      s := EncodeNode(w, element, elements[i]);
      if s.Fault? {
        RowFails(s, contents, w.Contents(), w.buffer.Length, t, rest);
        WritesThen(s, before, contents, w.Contents(), w.buffer.Length, whole, Row(t, rest));
        return;
      }
      WritesOne(before, contents, w.Contents(), w.buffer.Length, whole, t, rest);
    }
    EmptyRow(w.Contents(), w.buffer.Length);
    WritesThen(Done, before, w.Contents(), w.Contents(), w.buffer.Length, whole, Ok([]));
    s := Done;
  }

  lemma WritesWhole(before: seq<byte>, capacity: nat, whole: Result<seq<Tlv>>)
    ensures Writes(before, before, capacity, whole, whole)
  {
  }

  lemma WritesThen(s: Status, before: seq<byte>, contents: seq<byte>, after: seq<byte>, capacity: nat,
                   whole: Result<seq<Tlv>>, rest: Result<seq<Tlv>>)
    requires Writes(before, contents, capacity, whole, rest) && WroteRow(s, contents, after, capacity, rest)
    ensures WroteRow(s, before, after, capacity, whole)
  {
    hide WroteRow;
  }

  // ---------------------------------------------------------------- end to end

  lemma {:induction false} WrittenIsEncodable(ty: Type, v: Value, t: Tlv)
    requires WellTyped(ty, v) && TagsFit(ty) && EncodeValue(ty, v) == Ok(t) && Short(CallOf(t))
    ensures Encodable(t)
    decreases ty, v, 1
  {
    hide Twos, WriteOid, EncodeAll, ImageAll;
    match ty
    case Integer => Int64Octets(v.i);
    case ObjectId => ContentIsShort(v.arcs);
    case SeqOf(element) =>
      CallImages(t.children);
      RowIsEncodable(element, v.elements, t.children);
    case Seq(fields) =>
      CallImages(t.children);
      FieldRowIsEncodable(fields, v.fields, t.children);
    case _ =>
  }

  lemma ContentIsShort(arcs: seq<nat>)
    requires IsOid(arcs) && WriteOid(arcs).Ok?
    ensures |WriteOid(arcs).value| < TWO_TO_THE_64
  {
    hide OidContent;
  }

  lemma {:induction false} RowIsEncodable(ty: Type, vs: seq<Value>, ts: seq<Tlv>)
    requires AllWellTyped(ty, vs) && TagsFit(ty) && EncodeElements(ty, vs) == Ok(ts) && AllShort(CallsOf(ts))
    ensures AllEncodable(ts)
    decreases ty, vs, 2
  {
    hide EncodeValue, WellTyped, TagsFit, Encodable, Short, CallOf;
    if vs != [] {
      WrittenIsEncodable(ty, vs[0], ts[0]);
      assert ts[1..] == EncodeElements(ty, vs[1..]).value && CallsOf(ts)[1..] == CallsOf(ts[1..]);
      RowIsEncodable(ty, vs[1..], ts[1..]);
    }
  }

  lemma {:induction false} FieldRowIsEncodable(fs: seq<Field>, vs: seq<Option<Value>>, ts: seq<Tlv>)
    requires FieldsWellTyped(fs, vs) && FieldTagsFit(fs) && EncodeFields(fs, vs) == Ok(ts) && AllShort(CallsOf(ts))
    ensures AllEncodable(ts)
    decreases fs, vs, 0
  {
    hide EncodeField, WellTyped, FieldTagFits, Encodable, Short, CallOf;
    if fs != [] {
      if vs[0].Some? {
        FieldIsEncodable(fs[0], vs[0].value, ts[0]);
        assert ts[1..] == EncodeFields(fs[1..], vs[1..]).value && CallsOf(ts)[1..] == CallsOf(ts[1..]);
        FieldRowIsEncodable(fs[1..], vs[1..], ts[1..]);
      } else {
        FieldRowIsEncodable(fs[1..], vs[1..], ts);
      }
    }
  }

  lemma {:induction false} FieldIsEncodable(f: Field, v: Value, t: Tlv)
    requires FieldWellTyped(f, Some(v)) && FieldTagFits(f) && EncodeField(f, v) == Ok(t) && Short(CallOf(t))
    ensures Encodable(t)
    decreases f, v, 2
  {
    hide EncodeValue, WellTyped, TagsFit, EncodeAll, ImageAll;
    if f.tag.None? {
      WrittenIsEncodable(f.ty, v, t);
    } else {
      CallImages(t.children);
      assert CallsOf(t.children)[0] == CallOf(t.children[0]);
      WrittenIsEncodable(f.ty, v, t.children[0]);
      assert AllEncodable(t.children[1..]);
    }
  }

  // The emitted encoder, the parser and the emitted decoder one after the other: done exactly within the limits of
  // writer and parser, and then the value comes back exactly when its object identifiers survive.
  method Transmit(ty: Type, v: Value, w: Writer, result: ParseResult) returns (s: Status, back: Option<Value>)
    requires Unambiguous(ty) && TagsFit(ty) && WellTyped(ty, v)
    requires w.Valid() && w.Contents() == [] && w.buffer.Length < TWO_TO_THE_64 && result.Valid()
    modifies w`length, w.buffer, result, result.nodes
    ensures var r := EncodeValue(ty, v);
            s == Done <==> r.Ok? && Peak(CallOf(r.value)) <= w.buffer.Length && Short(CallOf(r.value))
                           && Height(r.value) <= MAX_DEPTH && Size(r.value) <= result.nodes.Length
    ensures s == Done ==> (back == Some(v) <==> OidsSurvive(v))
  {
    hide Encode, Flatten, Parse64, Overflows, Image, Peak, Short, EncodeValue, DecodeValue, Walkable, OidsSurvive,
         Unambiguous, WellTyped, TagsFit;
    back := None;
    ghost var r := EncodeValue(ty, v);
    s := EncodeNode(w, ty, v);
    if s.Fault? { return; }
    CallImage(r.value);
    WrittenIsEncodable(ty, v, r.value);
    assert [] + Encode(r.value) == Encode(r.value);
    RoundTrip(r.value, result.nodes.Length);
    var d := w.Contents();
    s := ParseInput(d, DER, result);
    if s.Fault? { return; }
    CodecRoundTrip(ty, v, result.nodes.Length);
    var decoded := DecodeNode(ty, d, result, 0);
    if decoded.Ok? { back := Some(decoded.value); }
  }
}
