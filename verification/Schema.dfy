// The codecs that C99Emitter.ex generates for SEQUENCE types, read as an interpreter over schemas: the
// encoder as the tree whose serializer calls the emitted code makes, the decoder as the emitted walk
// over the flat node array with its one-child lookahead.
module Schema {
  import opened Errors
  import opened Positional
  import opened Header
  import opened Reader
  import opened Machine
  import opened Tree
  import opened Structure
  import opened Rewrite
  import opened Types
  import opened Oid

  // A component type. Seq is a reference to another SEQUENCE type, SeqOf an inline SEQUENCE OF.
  datatype Type = Boolean | Integer | OctetString | ObjectId | SeqOf(element: Type) | Seq(fields: seq<Field>)

  // A component of a SEQUENCE: its EXPLICIT context tag, if any, and whether it is OPTIONAL.
  datatype Field = Field(tag: Option<nat>, ty: Type, optional: bool)

  // The generated structs: an absent OPTIONAL field is has_x == false, whatever x then holds.
  datatype Value =
    | VBool(b: bool)
    | VInt(i: int)
    | VOctets(bytes: seq<byte>)
    | VOid(arcs: seq<nat>)
    | VList(elements: seq<Value>)
    | VStruct(fields: seq<Option<Value>>)

  // sizeof of the bytes member, and ASN1C_MAX_SEQUENCE_ELEMENTS
  const MAX_OCTETS := 2048
  const MAX_ELEMENTS := 32

  // What the generated C types can hold.
  predicate WellTyped(ty: Type, v: Value)
    decreases ty, v, 1
  {
    match ty
    case Boolean => v.VBool?
    case Integer => v.VInt? && INT64_MIN <= v.i <= INT64_MAX
    case OctetString => v.VOctets? && |v.bytes| <= MAX_OCTETS
    case ObjectId => v.VOid? && IsOid(v.arcs)
    case SeqOf(element) => v.VList? && |v.elements| <= MAX_ELEMENTS && AllWellTyped(element, v.elements)
    case Seq(fields) => v.VStruct? && FieldsWellTyped(fields, v.fields)
  }

  predicate AllWellTyped(ty: Type, vs: seq<Value>)
    decreases ty, vs, 2
  {
    vs != [] ==> WellTyped(ty, vs[0]) && AllWellTyped(ty, vs[1..])
  }

  predicate FieldsWellTyped(fs: seq<Field>, vs: seq<Option<Value>>)
    decreases fs, vs, 0
  {
    |fs| == |vs| && (fs != [] ==> FieldWellTyped(fs[0], vs[0]) && FieldsWellTyped(fs[1..], vs[1..]))
  }

  predicate FieldWellTyped(f: Field, v: Option<Value>)
    decreases f, v, 3
  {
    if v.None? then f.optional else WellTyped(f.ty, v.value)
  }

  // ---------------------------------------------------------------- the emitted encoder

  function ContextTag(n: nat): Identifier { Identifier(ContextSpecific, n) }

  function TypeId(ty: Type): Identifier {
    match ty
    case Boolean => ID_BOOLEAN
    case Integer => ID_INTEGER
    case OctetString => ID_OCTET_STRING
    case ObjectId => ID_OID
    case SeqOf(_) => ID_SEQUENCE
    case Seq(_) => ID_SEQUENCE
  }

  function EncodeValue(ty: Type, v: Value): (r: Result<Tlv>)
    requires WellTyped(ty, v)
    ensures r.Ok? ==> r.value.id == TypeId(ty)
    decreases ty, v, 1
  {
    match ty
    case Boolean => Ok(Prim(ID_BOOLEAN, [if v.b then 0xFF else 0x00]))
    case Integer => Ok(Prim(ID_INTEGER, Twos(v.i)))
    case OctetString => Ok(Prim(ID_OCTET_STRING, v.bytes))
    case ObjectId => var c :- WriteOid(v.arcs); Ok(Prim(ID_OID, c))
    case SeqOf(element) => var ts :- EncodeElements(element, v.elements); Ok(Cons(ID_SEQUENCE, ts))
    case Seq(fields) => var ts :- EncodeFields(fields, v.fields); Ok(Cons(ID_SEQUENCE, ts))
  }

  function EncodeElements(ty: Type, vs: seq<Value>): (r: Result<seq<Tlv>>)
    requires AllWellTyped(ty, vs)
    decreases ty, vs, 2
  {
    if vs == [] then Ok([])
    else
      var t :- EncodeValue(ty, vs[0]);
      var ts :- EncodeElements(ty, vs[1..]);
      Ok([t] + ts)
  }

  function EncodeField(f: Field, v: Value): (r: Result<Tlv>)
    requires FieldWellTyped(f, Some(v))
    ensures r.Ok? ==> r.value.id == FieldId(f)
    decreases f, v, 2
  {
    var t :- EncodeValue(f.ty, v);
    Ok(if f.tag.Some? then Cons(ContextTag(f.tag.value), [t]) else t)
  }

  function EncodeFields(fs: seq<Field>, vs: seq<Option<Value>>): (r: Result<seq<Tlv>>)
    requires FieldsWellTyped(fs, vs)
    decreases fs, vs, 0
  {
    if fs == [] then Ok([])
    else if vs[0].None? then EncodeFields(fs[1..], vs[1..])
    else
      var t :- EncodeField(fs[0], vs[0].value);
      var ts :- EncodeFields(fs[1..], vs[1..]);
      Ok([t] + ts)
  }

  // ---------------------------------------------------------------- the emitted decoder

  function FieldId(f: Field): Identifier {
    if f.tag.Some? then ContextTag(f.tag.value) else TypeId(f.ty)
  }

  // The emitted match condition; untagged references are not checked.
  predicate Matches(f: Field, id: Identifier) {
    if f.tag.Some? then id == ContextTag(f.tag.value) else f.ty.Seq? || id == TypeId(f.ty)
  }

  function ReadBoolean(d: seq<byte>, n: Node): Result<bool>
    requires ValidNode(d, n)
  {
    if n.id != ID_BOOLEAN then Err(UnexpectedFieldType, 0)
    else if n.constructed then Err(InvalidObject, 0)
    else if n.dataLength != 1 then Err(InvalidBoolean, 0)
    else
      var b := Data(d, n)[0];
      if b != 0x00 && b != 0xFF then Err(InvalidBoolean, 0) else Ok(b != 0x00)
  }

  function ReadOctets(d: seq<byte>, n: Node): Result<seq<byte>>
    requires ValidNode(d, n)
  {
    if n.id != ID_OCTET_STRING then Err(UnexpectedFieldType, 0)
    else if n.constructed then Err(InvalidObject, 0)
    else
      var bytes := Data(d, n);
      Ok(if |bytes| > MAX_OCTETS then bytes[..MAX_OCTETS] else bytes)
  }

  ghost predicate Decodable(d: seq<byte>, ns: seq<Node>) {
    Walkable(d, ns) && forall i :: 0 <= i < |ns| ==> ValidNode(d, ns[i])
  }

  function DecodeValue(ty: Type, d: seq<byte>, ns: seq<Node>, i: nat): Result<Value>
    requires Decodable(d, ns) && i < |ns|
    decreases ty, 0
  {
    match ty
    case Boolean => var b :- ReadBoolean(d, ns[i]); Ok(VBool(b))
    case Integer => var n :- ReadInt64(d, ns[i]); Ok(VInt(n))
    case OctetString => var bytes :- ReadOctets(d, ns[i]); Ok(VOctets(bytes))
    case ObjectId => var arcs :- ReadOid(d, ns[i]); Ok(VOid(arcs))
    case SeqOf(element) =>
      if !ns[i].constructed then Err(InvalidObject, 0)
      else
        var vs :- DecodeElements(element, d, ns, i + 1, i + ns[i].subtreeSize, ns[i].depth, 0);
        Ok(VList(vs))
    case Seq(fields) =>
      if !ns[i].constructed then Err(InvalidObject, 0)
      else
        var vs :- DecodeFields(fields, d, ns, i + 1, i + ns[i].subtreeSize, ns[i].depth, None);
        Ok(VStruct(vs))
  }

  // The loop stops at NULL or when the array is full, dropping what is left.
  function DecodeElements(ty: Type, d: seq<byte>, ns: seq<Node>, current: nat, end: nat, parentDepth: nat, count: nat)
      : Result<seq<Value>>
    requires Decodable(d, ns) && end <= |ns|
    decreases ty, 1 + |ns| - current
  {
    var (child, next) := Advance(ns, current, end, parentDepth);
    if child.None? || count >= MAX_ELEMENTS then Ok([])
    else
      var v :- DecodeValue(ty, d, ns, child.value);
      var vs :- DecodeElements(ty, d, ns, next, end, parentDepth, count + 1);
      Ok([v] + vs)
  }

  // One field at a time; "pending" is the child fetched for an OPTIONAL field that did not match it.
  function DecodeFields(fs: seq<Field>, d: seq<byte>, ns: seq<Node>, current: nat, end: nat, parentDepth: nat,
                        pending: Option<nat>)
      : Result<seq<Option<Value>>>
    requires Decodable(d, ns) && end <= |ns| && (pending.Some? ==> pending.value < |ns|)
    decreases fs, 0
  {
    if fs == [] then Ok([])
    else
      var (child, next) := if pending.Some? then (pending, current) else Advance(ns, current, end, parentDepth);
      if child.Some? && Matches(fs[0], ns[child.value].id) then
        var v :- DecodeField(fs[0], d, ns, child.value);
        var vs :- DecodeFields(fs[1..], d, ns, next, end, parentDepth, None);
        Ok([Some(v)] + vs)
      else if fs[0].optional then
        var vs :- DecodeFields(fs[1..], d, ns, next, end, parentDepth, child);
        Ok([None] + vs)
      else if child.None? then Err(TruncatedField, 0)
      else Err(UnexpectedFieldType, 0)
  }

  function DecodeField(f: Field, d: seq<byte>, ns: seq<Node>, i: nat): Result<Value>
    requires Decodable(d, ns) && i < |ns|
    decreases f, 0
  {
    if f.tag.None? then DecodeValue(f.ty, d, ns, i)
    else
      var (child, _) := Advance(ns, i + 1, i + ns[i].subtreeSize, ns[i].depth);
      if child.None? then Err(TruncatedField, 0) else DecodeValue(f.ty, d, ns, child.value)
  }

  // ---------------------------------------------------------------- schemas and values that survive

  // An OPTIONAL field is told apart from each field that may follow it in its absence: the ones up to
  // and including the next required one.
  predicate Clear(f: Field, rest: seq<Field>) {
    rest != [] ==> !Matches(f, FieldId(rest[0])) && (rest[0].optional ==> Clear(f, rest[1..]))
  }

  predicate Unambiguous(ty: Type)
    decreases ty, 0
  {
    match ty
    case SeqOf(element) => Unambiguous(element)
    case Seq(fields) => FieldsUnambiguous(fields)
    case _ => true
  }

  predicate FieldsUnambiguous(fs: seq<Field>)
    decreases fs, 0
  {
    fs != [] ==>
      FieldUnambiguous(fs[0]) && (fs[0].optional ==> Clear(fs[0], fs[1..])) && FieldsUnambiguous(fs[1..])
  }

  predicate FieldUnambiguous(f: Field)
    decreases f, 0
  {
    Unambiguous(f.ty)
  }

  // Object identifiers within the round-trip domain of asn1_types.c.
  predicate OidsSurvive(v: Value)
    decreases v, 1
  {
    match v
    case VOid(arcs) => |arcs| >= 2 ==> arcs[1] <= 39
    case VList(elements) => AllOidsSurvive(elements)
    case VStruct(fields) => FieldOidsSurvive(fields)
    case _ => true
  }

  predicate AllOidsSurvive(vs: seq<Value>)
    decreases vs, 0
  {
    vs != [] ==> OidsSurvive(vs[0]) && AllOidsSurvive(vs[1..])
  }

  predicate FieldOidsSurvive(vs: seq<Option<Value>>)
    decreases vs, 0
  {
    vs != [] ==> OptionOidsSurvive(vs[0]) && FieldOidsSurvive(vs[1..])
  }

  predicate OptionOidsSurvive(v: Option<Value>)
    decreases v, 0
  {
    v.Some? ==> OidsSurvive(v.value)
  }

  // ---------------------------------------------------------------- decoding what was encoded

  lemma PrimitiveHeld(d: seq<byte>, ns: seq<Node>, i: nat, t: Tlv, off: nat, depth: nat)
    requires Decodable(d, ns) && Holds(d, ns, i, t, off, depth) && t.Prim?
    ensures i < |ns| && ns[i].id == t.id && !ns[i].constructed && ns[i].depth == depth && ns[i].subtreeSize == 1
    ensures ValidNode(d, ns[i]) && Data(d, ns[i]) == t.content && ns[i].dataLength == |t.content|
  {
    hide EncodeHeader;
    AtConcat(d, off, EncodeHeader(t.id, false, |t.content|), t.content);
    SplitSlice(ns, i, Flatten(t, off, depth), []);
  }

  lemma ConstructedHeld(d: seq<byte>, ns: seq<Node>, i: nat, t: Tlv, off: nat, depth: nat) returns (start: nat)
    requires Decodable(d, ns) && Holds(d, ns, i, t, off, depth) && t.Cons?
    ensures i < |ns| && ns[i].id == t.id && ns[i].constructed && ns[i].depth == depth
    ensures ns[i].subtreeSize == 1 + SizeAll(t.children) && i + ns[i].subtreeSize <= |ns|
    ensures HoldsAll(d, ns, i + 1, t.children, start, depth + 1)
  {
    hide EncodeHeader, FlattenAll;
    var header := EncodeHeader(t.id, true, |EncodeAll(t.children)|);
    start := off + |header|;
    AtConcat(d, off, header, EncodeAll(t.children));
    SplitSlice(ns, i, [Closed(t.id, off, off + |Encode(t)|, depth, Size(t))], FlattenAll(t.children, start, depth + 1));
  }

  // The iterator standing on a held row.
  lemma RowAdvances(d: seq<byte>, ns: seq<Node>, current: nat, ts: seq<Tlv>, off: nat, depth: nat)
    requires Decodable(d, ns) && depth >= 1 && HoldsAll(d, ns, current, ts, off, depth)
    ensures current + SizeAll(ts) <= |ns|
    ensures Advance(ns, current, current + SizeAll(ts), depth - 1)
         == if ts == [] then (None, current) else (Some(current), current + Size(ts[0]))
    ensures ts != [] ==>
              && Holds(d, ns, current, ts[0], off, depth)
              && HoldsAll(d, ns, current + Size(ts[0]), ts[1..], off + |Encode(ts[0])|, depth)
              && current + Size(ts[0]) + SizeAll(ts[1..]) == current + SizeAll(ts)
  {
    hide Encode, Flatten, Size, Holds, Walkable;
    if ts != [] {
      RowSplits(d, ns, current, ts, off, depth);
      UnfoldRow(ts, off, depth);
    }
  }

  lemma HeldId(d: seq<byte>, ns: seq<Node>, i: nat, t: Tlv, off: nat, depth: nat)
    requires Holds(d, ns, i, t, off, depth)
    ensures i < |ns| && ns[i].id == t.id
  {
    hide EncodeHeader, FlattenAll;
    assert ns[i] == ns[i..i + Size(t)][0];
  }

  lemma LeafDecodes(ty: Type, v: Value, t: Tlv, d: seq<byte>, ns: seq<Node>, i: nat, off: nat, depth: nat)
    requires !ty.SeqOf? && !ty.Seq? && WellTyped(ty, v) && EncodeValue(ty, v) == Ok(t)
    requires Decodable(d, ns) && Holds(d, ns, i, t, off, depth)
    ensures i < |ns|
    ensures DecodeValue(ty, d, ns, i) == Ok(v) <==> OidsSurvive(v)
  {
    hide Encode, Flatten, Holds, Decodable, ValidNode, Data, Twos, OidContent, ReadOidContent;
    PrimitiveHeld(d, ns, i, t, off, depth);
    match ty
    case Integer => Int64Codec(d, ns[i], v.i);
    case ObjectId => OidRoundTrip(v.arcs);
    case _ =>
  }

  lemma {:induction false} ValueDecodes(ty: Type, v: Value, t: Tlv, d: seq<byte>, ns: seq<Node>, i: nat, off: nat,
                                        depth: nat)
    requires Unambiguous(ty) && WellTyped(ty, v) && EncodeValue(ty, v) == Ok(t)
    requires Decodable(d, ns) && Holds(d, ns, i, t, off, depth)
    ensures i < |ns|
    ensures DecodeValue(ty, d, ns, i) == Ok(v) <==> OidsSurvive(v)
    decreases ty, v, 1
  {
    hide Encode, Flatten, Holds, HoldsAll, Decodable, ValidNode, Data, Twos, WriteOid, ReadInt64, ReadOid, ReadOctets,
         ReadBoolean;
    match ty
    case SeqOf(element) =>
      var start := ConstructedHeld(d, ns, i, t, off, depth);
      ElementsDecode(element, v.elements, t.children, d, ns, i + 1, start, depth + 1, 0);
    case Seq(fields) =>
      var start := ConstructedHeld(d, ns, i, t, off, depth);
      FieldsDecode(fields, v.fields, t.children, d, ns, i + 1, start, depth + 1);
    case _ => LeafDecodes(ty, v, t, d, ns, i, off, depth);
  }

  lemma {:induction false} ElementsDecode(ty: Type, vs: seq<Value>, ts: seq<Tlv>, d: seq<byte>, ns: seq<Node>,
                                          current: nat, off: nat, depth: nat, count: nat)
    requires Unambiguous(ty) && AllWellTyped(ty, vs) && EncodeElements(ty, vs) == Ok(ts)
    requires count + |vs| <= MAX_ELEMENTS && depth >= 1
    requires Decodable(d, ns) && HoldsAll(d, ns, current, ts, off, depth)
    ensures current + SizeAll(ts) <= |ns|
    ensures DecodeElements(ty, d, ns, current, current + SizeAll(ts), depth - 1, count) == Ok(vs)
       <==> AllOidsSurvive(vs)
    decreases ty, vs, 2
  {
    hide Encode, Flatten, Size, Holds, HoldsAll, Decodable, EncodeValue, DecodeValue, WellTyped, OidsSurvive, Advance;
    RowAdvances(d, ns, current, ts, off, depth);
    if vs != [] {
      var rest := EncodeElements(ty, vs[1..]).value;
      assert ts[1..] == rest;
      ValueDecodes(ty, vs[0], ts[0], d, ns, current, off, depth);
      ElementsDecode(ty, vs[1..], rest, d, ns, current + Size(ts[0]), off + |Encode(ts[0])|, depth, count + 1);
      assert vs == [vs[0]] + vs[1..];
    }
  }

  lemma {:induction false} FieldDecodes(f: Field, v: Value, t: Tlv, d: seq<byte>, ns: seq<Node>, i: nat, off: nat,
                                        depth: nat)
    requires FieldUnambiguous(f) && FieldWellTyped(f, Some(v)) && EncodeField(f, v) == Ok(t) && depth >= 1
    requires Decodable(d, ns) && Holds(d, ns, i, t, off, depth)
    ensures i < |ns| && Matches(f, ns[i].id)
    ensures DecodeField(f, d, ns, i) == Ok(v) <==> OidsSurvive(v)
    decreases f, v, 2
  {
    hide Encode, Flatten, Holds, HoldsAll, Decodable, EncodeValue, DecodeValue, WellTyped, OidsSurvive, Advance;
    HeldId(d, ns, i, t, off, depth);
    if f.tag.None? {
      ValueDecodes(f.ty, v, t, d, ns, i, off, depth);
    } else {
      var start := ConstructedHeld(d, ns, i, t, off, depth);
      RowAdvances(d, ns, i + 1, t.children, start, depth + 1);
      ValueDecodes(f.ty, v, t.children[0], d, ns, i + 1, start, depth + 1);
    }
  }

  // The first tree of a row of fields belongs to a field that an absent OPTIONAL field before them is
  // told apart from.
  lemma {:induction false} FirstPresent(f: Field, fs: seq<Field>, vs: seq<Option<Value>>, ts: seq<Tlv>)
    requires FieldsWellTyped(fs, vs) && EncodeFields(fs, vs) == Ok(ts) && Clear(f, fs) && ts != []
    ensures !Matches(f, ts[0].id)
    decreases fs
  {
    hide EncodeField, WellTyped;
    if vs[0].None? { FirstPresent(f, fs[1..], vs[1..], ts); }
  }

  lemma {:induction false} FieldsDecode(fs: seq<Field>, vs: seq<Option<Value>>, ts: seq<Tlv>, d: seq<byte>,
                                        ns: seq<Node>, current: nat, off: nat, depth: nat)
    requires FieldsUnambiguous(fs) && FieldsWellTyped(fs, vs) && EncodeFields(fs, vs) == Ok(ts) && depth >= 1
    requires Decodable(d, ns) && HoldsAll(d, ns, current, ts, off, depth)
    ensures current + SizeAll(ts) <= |ns|
    ensures DecodeFields(fs, d, ns, current, current + SizeAll(ts), depth - 1, None) == Ok(vs) <==> FieldOidsSurvive(vs)
    decreases fs, vs, 0
  {
    hide Encode, Flatten, Size, Holds, HoldsAll, Decodable, EncodeField, DecodeField, WellTyped, OidsSurvive, Advance,
         FieldUnambiguous, Matches, Clear;
    RowAdvances(d, ns, current, ts, off, depth);
    if fs != [] {
      assert vs == [vs[0]] + vs[1..];
      if vs[0].Some? {
        var rest := EncodeFields(fs[1..], vs[1..]).value;
        assert ts[1..] == rest;
        FieldDecodes(fs[0], vs[0].value, ts[0], d, ns, current, off, depth);
        FieldsDecode(fs[1..], vs[1..], rest, d, ns, current + Size(ts[0]), off + |Encode(ts[0])|, depth);
      } else {
        FieldsDecode(fs[1..], vs[1..], ts, d, ns, current, off, depth);
        if ts != [] {
          FirstPresent(fs[0], fs[1..], vs[1..], ts);
          HeldId(d, ns, current, ts[0], off, depth);
        }
      }
    }
  }

  // Encoding a value with an unambiguous schema, parsing the octets in DER mode and decoding the node
  // array gives the value back exactly when its object identifiers are in their round-trip domain.
  lemma CodecRoundTrip(ty: Type, v: Value, capacity: nat)
    requires Unambiguous(ty) && WellTyped(ty, v) && EncodeValue(ty, v).Ok?
    requires var t := EncodeValue(ty, v).value;
             Encodable(t) && |Encode(t)| < TWO_TO_THE_64 && Height(t) <= MAX_DEPTH && Size(t) <= capacity
    ensures var d := Encode(EncodeValue(ty, v).value);
            && Parse64(d, DER, capacity).Ok? && Decodable(d, Parse64(d, DER, capacity).value)
            && (DecodeValue(ty, d, Parse64(d, DER, capacity).value, 0) == Ok(v) <==> OidsSurvive(v))
  {
    hide Encode, Flatten, Parse64, Overflows, EncodeValue, DecodeValue, Walkable, OidsSurvive, Unambiguous;
    var t := EncodeValue(ty, v).value;
    var d := Encode(t);
    RoundTrip(t, capacity);
    var ns := Flatten(t, 0, 1);
    assert d[0..|d|] == d && ns[0..|ns|] == ns;
    ParsedIsWalkable(d, DER, capacity);
    FlattenDecodable(t);
    ValueDecodes(ty, v, t, d, ns, 0, 0, 1);
  }

  // ---------------------------------------------------------------- flattenings are well formed

  lemma {:induction false} FlattenLaminar(t: Tlv, off: nat, depth: nat)
    ensures Laminar(Flatten(t, off, depth))
    ensures Flatten(t, off, depth)[0].depth == depth && Flatten(t, off, depth)[0].subtreeSize == Size(t)
    decreases t, 1
  {
    hide FlattenAll, EncodeHeader, Encode, Laminar;
    match t
    case Prim(_, _) => SingleLaminar(Flatten(t, off, depth));
    case Cons(id, children) =>
      var start := off + |EncodeHeader(id, true, |EncodeAll(children)|)|;
      RowLaminar(children, start, depth + 1);
      HeadLaminar(Closed(id, off, off + |Encode(t)|, depth, Size(t)), FlattenAll(children, start, depth + 1));
  }

  lemma SingleLaminar(ns: seq<Node>)
    requires |ns| == 1 && ns[0].subtreeSize == 1
    ensures Laminar(ns)
  {
  }

  lemma HeadLaminar(head: Node, kids: seq<Node>)
    requires Laminar(kids) && head.subtreeSize == 1 + |kids|
    requires forall i :: 0 <= i < |kids| ==> kids[i].depth > head.depth
    ensures Laminar([head] + kids)
  {
    var ns := [head] + kids;
    forall i, j | 0 <= i < j < |ns| && j < i + ns[i].subtreeSize
      ensures j + ns[j].subtreeSize <= i + ns[i].subtreeSize && ns[j].depth > ns[i].depth
    {
      assert ns[j] == kids[j - 1];
      if i > 0 { assert ns[i] == kids[i - 1]; }
    }
  }

  lemma {:induction false} RowLaminar(ts: seq<Tlv>, off: nat, depth: nat)
    ensures Laminar(FlattenAll(ts, off, depth))
    ensures forall i :: 0 <= i < SizeAll(ts) ==> FlattenAll(ts, off, depth)[i].depth >= depth
    decreases ts, 0
  {
    hide Flatten, Size, Encode;
    if ts != [] {
      UnfoldRow(ts, off, depth);
      FlattenLaminar(ts[0], off, depth);
      RowLaminar(ts[1..], off + |Encode(ts[0])|, depth);
      JoinLaminar(Flatten(ts[0], off, depth), FlattenAll(ts[1..], off + |Encode(ts[0])|, depth));
    }
  }

  lemma {:induction false} FlattenForms(t: Tlv, off: nat, depth: nat)
    ensures forall i :: 0 <= i < Size(t) ==>
              var n := Flatten(t, off, depth)[i]; !n.constructed ==> n.data.Some?
    decreases t, 1
  {
    hide EncodeHeader;
    if t.Cons? {
      RowForms(t.children, off + |EncodeHeader(t.id, true, |EncodeAll(t.children)|)|, depth + 1);
    }
  }

  lemma {:induction false} RowForms(ts: seq<Tlv>, off: nat, depth: nat)
    ensures forall i :: 0 <= i < SizeAll(ts) ==>
              var n := FlattenAll(ts, off, depth)[i]; !n.constructed ==> n.data.Some?
    decreases ts, 0
  {
    hide Flatten, Size, Encode;
    if ts != [] {
      UnfoldRow(ts, off, depth);
      FlattenForms(ts[0], off, depth);
      RowForms(ts[1..], off + |Encode(ts[0])|, depth);
    }
  }

  lemma FlattenDecodable(t: Tlv)
    ensures Decodable(Encode(t), Flatten(t, 0, 1)) && Holds(Encode(t), Flatten(t, 0, 1), 0, t, 0, 1)
  {
    hide Encode, Flatten, Laminar;
    var d, ns := Encode(t), Flatten(t, 0, 1);
    assert d[0..|d|] == d && ns[0..|ns|] == ns;
    FlattenLaminar(t, 0, 1);
    FlattenForms(t, 0, 1);
    FlattenShapes(d, t, 0, 1);
  }
}
