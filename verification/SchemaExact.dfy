// The condition on schemas is exact: an ambiguous schema has a value that its codec does not give back.
module SchemaExact {
  import opened Errors
  import opened Positional
  import opened Reader
  import opened Tree
  import opened Structure
  import opened Rewrite
  import opened Oid
  import opened Schema

  // ---------------------------------------------------------------- a value of every type

  function Default(ty: Type): (v: Value)
    ensures WellTyped(ty, v) && EncodeValue(ty, v).Ok? && OidsSurvive(v)
    decreases ty, 0
  {
    match ty
    case Boolean => VBool(false)
    case Integer => VInt(0)
    case OctetString => VOctets([])
    case ObjectId => ZeroOid(); VOid([0, 0])
    case SeqOf(_) => VList([])
    case Seq(fields) => VStruct(DefaultFields(fields))
  }

  lemma ZeroOid()
    ensures WriteOid([0, 0]).Ok?
  {
    assert [0, 0][2..] == [];
  }

  function DefaultField(f: Field): (v: Option<Value>)
    ensures FieldWellTyped(f, v) && OptionOidsSurvive(v)
    ensures v.Some? ==> EncodeField(f, v.value).Ok?
    decreases f, 0
  {
    if f.optional then None else Some(Default(f.ty))
  }

  function DefaultFields(fs: seq<Field>): (vs: seq<Option<Value>>)
    ensures FieldsWellTyped(fs, vs) && EncodeFields(fs, vs).Ok? && FieldOidsSurvive(vs)
    decreases fs, 0
  {
    if fs == [] then [] else Prepend(fs, DefaultField(fs[0]), DefaultFields(fs[1..]))
  }

  function Prepend(fs: seq<Field>, v: Option<Value>, rest: seq<Option<Value>>): (vs: seq<Option<Value>>)
    requires fs != [] && FieldWellTyped(fs[0], v) && OptionOidsSurvive(v)
    requires v.Some? ==> EncodeField(fs[0], v.value).Ok?
    requires FieldsWellTyped(fs[1..], rest) && EncodeFields(fs[1..], rest).Ok? && FieldOidsSurvive(rest)
    ensures vs == [v] + rest && vs[0] == v && vs[1..] == rest
    ensures FieldsWellTyped(fs, vs) && EncodeFields(fs, vs).Ok? && FieldOidsSurvive(vs)
  {
    [v] + rest
  }

  // ---------------------------------------------------------------- a value that is lost

  function Lost(ty: Type): (v: Value)
    requires !Unambiguous(ty)
    ensures WellTyped(ty, v) && EncodeValue(ty, v).Ok? && OidsSurvive(v)
    decreases ty, 0
  {
    match ty
    case SeqOf(element) => var v := Lost(element); OneElement(element, v); VList([v])
    case Seq(fields) => VStruct(LostFields(fields))
  }

  lemma OneElement(ty: Type, v: Value)
    requires WellTyped(ty, v) && EncodeValue(ty, v).Ok? && OidsSurvive(v)
    ensures AllWellTyped(ty, [v]) && EncodeElements(ty, [v]) == Ok([EncodeValue(ty, v).value]) && AllOidsSurvive([v])
  {
    hide EncodeValue, WellTyped, OidsSurvive;
    assert [v][1..] == [];
    assert EncodeElements(ty, [v][1..]) == Ok([]);
    assert [EncodeValue(ty, v).value] + [] == [EncodeValue(ty, v).value];
  }

  function LostField(f: Field): (v: Value)
    requires !FieldUnambiguous(f)
    ensures FieldWellTyped(f, Some(v)) && EncodeField(f, v).Ok? && OptionOidsSurvive(Some(v))
    decreases f, 0
  {
    Lost(f.ty)
  }

  function LostFields(fs: seq<Field>): (vs: seq<Option<Value>>)
    requires !FieldsUnambiguous(fs)
    ensures FieldsWellTyped(fs, vs) && EncodeFields(fs, vs).Ok? && FieldOidsSurvive(vs)
    decreases fs, 0
  {
    if !FieldUnambiguous(fs[0]) then Prepend(fs, Some(LostField(fs[0])), DefaultFields(fs[1..]))
    else if fs[0].optional && !Clear(fs[0], fs[1..]) then Prepend(fs, None, Taken(fs[0], fs[1..]))
    else Prepend(fs, DefaultField(fs[0]), LostFields(fs[1..]))
  }

  // Fields whose first present one is taken for the absent field f.
  function Taken(f: Field, fs: seq<Field>): (vs: seq<Option<Value>>)
    requires !Clear(f, fs)
    ensures FieldsWellTyped(fs, vs) && EncodeFields(fs, vs).Ok? && FieldOidsSurvive(vs)
    ensures EncodeFields(fs, vs).value != [] && Matches(f, EncodeFields(fs, vs).value[0].id)
    decreases fs, 0
  {
    if Matches(f, FieldId(fs[0])) then Prepend(fs, Some(Default(fs[0].ty)), DefaultFields(fs[1..]))
    else Prepend(fs, None, Taken(f, fs[1..]))
  }

  lemma {:induction false} LostValue(ty: Type, d: seq<byte>, ns: seq<Node>, i: nat, off: nat, depth: nat)
    requires !Unambiguous(ty) && Decodable(d, ns)
    requires Holds(d, ns, i, EncodeValue(ty, Lost(ty)).value, off, depth)
    ensures i < |ns| && DecodeValue(ty, d, ns, i) != Ok(Lost(ty))
    decreases ty, 0
  {
    hide Encode, Flatten, Holds, HoldsAll, Decodable, Advance, WellTyped, OidsSurvive, EncodeElements, EncodeFields,
         DecodeElements, DecodeFields, LostFields, Size;
    var t := EncodeValue(ty, Lost(ty)).value;
    match ty
    case SeqOf(element) =>
      OneElement(element, Lost(element));
      var start := ConstructedHeld(d, ns, i, t, off, depth);
      LostList(element, d, ns, i + 1, start, depth + 1);
    case Seq(fields) =>
      var start := ConstructedHeld(d, ns, i, t, off, depth);
      LostRow(fields, d, ns, i + 1, start, depth + 1);
  }

  lemma {:induction false} LostList(element: Type, d: seq<byte>, ns: seq<Node>, current: nat, off: nat, depth: nat)
    requires !Unambiguous(element) && Decodable(d, ns) && depth >= 1
    requires HoldsAll(d, ns, current, [EncodeValue(element, Lost(element)).value], off, depth)
    ensures var end := current + SizeAll([EncodeValue(element, Lost(element)).value]);
            end <= |ns| && DecodeElements(element, d, ns, current, end, depth - 1, 0) != Ok([Lost(element)])
    decreases element, 1
  {
    hide Encode, Flatten, Holds, HoldsAll, Decodable, Advance, WellTyped, OidsSurvive, EncodeValue, DecodeValue,
         Lost, Size;
    var ts := [EncodeValue(element, Lost(element)).value];
    RowAdvances(d, ns, current, ts, off, depth);
    LostValue(element, d, ns, current, off, depth);
    var r := DecodeElements(element, d, ns, current, current + SizeAll(ts), depth - 1, 0);
    if r.Ok? { assert r.value[0] == DecodeValue(element, d, ns, current).value; }
  }

  lemma {:induction false} LostPresent(f: Field, d: seq<byte>, ns: seq<Node>, i: nat, off: nat, depth: nat)
    requires !FieldUnambiguous(f) && Decodable(d, ns)
    requires Holds(d, ns, i, EncodeField(f, LostField(f)).value, off, depth)
    ensures i < |ns| && DecodeField(f, d, ns, i) != Ok(LostField(f))
    decreases f, 0
  {
    hide Encode, Flatten, Holds, HoldsAll, Decodable, Advance, DecodeValue, EncodeValue, Lost;
    var t := EncodeField(f, LostField(f)).value;
    HeldId(d, ns, i, t, off, depth);
    if f.tag.None? {
      LostValue(f.ty, d, ns, i, off, depth);
    } else {
      var start := ConstructedHeld(d, ns, i, t, off, depth);
      RowAdvances(d, ns, i + 1, t.children, start, depth + 1);
      LostValue(f.ty, d, ns, i + 1, start, depth + 1);
    }
  }

  lemma {:induction false} LostRow(fs: seq<Field>, d: seq<byte>, ns: seq<Node>, current: nat, off: nat, depth: nat)
    requires !FieldsUnambiguous(fs) && Decodable(d, ns) && depth >= 1
    requires HoldsAll(d, ns, current, EncodeFields(fs, LostFields(fs)).value, off, depth)
    ensures var end := current + SizeAll(EncodeFields(fs, LostFields(fs)).value);
            end <= |ns| && DecodeFields(fs, d, ns, current, end, depth - 1, None) != Ok(LostFields(fs))
    decreases fs, 0
  {
    hide Encode, Flatten, Size, Holds, HoldsAll, Decodable, EncodeField, DecodeField, Advance, FieldUnambiguous,
         Matches, Clear, Default, DefaultField, DefaultFields, LostField, Taken;
    var vs := LostFields(fs);
    var ts := EncodeFields(fs, vs).value;
    RowAdvances(d, ns, current, ts, off, depth);
    if ts != [] { HeldId(d, ns, current, ts[0], off, depth); }
    if !FieldUnambiguous(fs[0]) {
      LostPresent(fs[0], d, ns, current, off, depth);
    } else if fs[0].optional && !Clear(fs[0], fs[1..]) {
      assert vs[0] == None;
    } else if vs[0].Some? {
      assert ts[1..] == EncodeFields(fs[1..], vs[1..]).value;
      LostRow(fs[1..], d, ns, current + Size(ts[0]), off + |Encode(ts[0])|, depth);
    } else {
      if ts != [] { FirstPresent(fs[0], fs[1..], vs[1..], ts); }
      LostRow(fs[1..], d, ns, current, off, depth);
    }
  }

  // ---------------------------------------------------------------- the exact condition

  // Whatever array holds the encoding of v, decoding it gives v.
  ghost predicate GivenBack(ty: Type, v: Value)
    requires WellTyped(ty, v) && EncodeValue(ty, v).Ok?
  {
    forall d, ns, i: nat, off: nat, depth: nat ::
      Decodable(d, ns) && Holds(d, ns, i, EncodeValue(ty, v).value, off, depth)
      ==> i < |ns| && DecodeValue(ty, d, ns, i) == Ok(v)
  }

  // The generated codec of a schema gives back every value it encodes, object identifiers apart,
  // exactly when no OPTIONAL field can be mistaken for one that may follow in its absence.
  lemma CodecExact(ty: Type)
    ensures Unambiguous(ty)
       <==> forall v :: WellTyped(ty, v) && EncodeValue(ty, v).Ok? && OidsSurvive(v) ==> GivenBack(ty, v)
  {
    hide Encode, Flatten, Holds, Decodable, EncodeValue, DecodeValue, Unambiguous, OidsSurvive, WellTyped, Lost;
    if Unambiguous(ty) {
      forall v | WellTyped(ty, v) && EncodeValue(ty, v).Ok? && OidsSurvive(v)
        ensures GivenBack(ty, v)
      {
        forall d, ns, i: nat, off: nat, depth: nat
          | Decodable(d, ns) && Holds(d, ns, i, EncodeValue(ty, v).value, off, depth)
          ensures i < |ns| && DecodeValue(ty, d, ns, i) == Ok(v)
        {
          ValueDecodes(ty, v, EncodeValue(ty, v).value, d, ns, i, off, depth);
        }
      }
    } else {
      var t := EncodeValue(ty, Lost(ty)).value;
      FlattenDecodable(t);
      LostValue(ty, Encode(t), Flatten(t, 0, 1), 0, 0, 1);
    }
  }
}
