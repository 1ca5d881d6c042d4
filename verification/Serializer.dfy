// asn1_serializer.c: forward writing with a five-octet length placeholder that is shrunk in place when
// a constructed node is closed, and the proof that this refines recursive definite-length encoding.
module Serializer {
  import opened Errors
  import opened Positional
  import opened Header
  import opened Internal

  const PLACEHOLDER: seq<byte> := [0x84, 0, 0, 0, 0]

  // ---------------------------------------------------------------- the serializer

  // What writing pieces in turn leaves: the contents after the last piece that fits.
  function Put(contents: seq<byte>, capacity: nat, pieces: seq<seq<byte>>): (r: (Status, seq<byte>))
    ensures contents <= r.1
    decreases |pieces|
  {
    if pieces == [] then (Done, contents)
    else if |contents| + |pieces[0]| > capacity then (Fault(BufferTooSmall, |contents|), contents)
    else Put(contents + pieces[0], capacity, pieces[1..])
  }

  function Join(pieces: seq<seq<byte>>): seq<byte>
    decreases |pieces|
  {
    if pieces == [] then [] else pieces[0] + Join(pieces[1..])
  }

  // Writing in pieces succeeds exactly when the whole fits.
  lemma {:induction false} PutJoins(contents: seq<byte>, capacity: nat, pieces: seq<seq<byte>>)
    requires |contents| <= capacity
    ensures var (s, c) := Put(contents, capacity, pieces);
            && (s == Done <==> |contents| + |Join(pieces)| <= capacity)
            && (s == Done ==> c == contents + Join(pieces))
            && (s != Done ==> s == Fault(BufferTooSmall, |c|) && c <= contents + Join(pieces))
    decreases |pieces|
  {
    if pieces != [] && |contents| + |pieces[0]| <= capacity {
      PutJoins(contents + pieces[0], capacity, pieces[1..]);
    }
  }

  lemma PutThen(contents: seq<byte>, capacity: nat, first: seq<byte>, rest: seq<seq<byte>>)
    ensures var (s, c) := Put(contents, capacity, [first]);
            Put(contents, capacity, [first] + rest) == if s == Done then Put(c, capacity, rest) else (s, c)
  {
    assert ([first] + rest)[1..] == rest;
  }

  class Writer {
    const buffer: array<byte>
    var length: nat

    constructor (buffer: array<byte>)
      ensures this.buffer == buffer && Valid() && Contents() == []
    {
      this.buffer := buffer;
      length := 0;
    }

    ghost predicate Valid()
      reads this
    {
      length <= buffer.Length
    }

    function Contents(): seq<byte>
      requires Valid()
      reads this, buffer
    {
      buffer[..length]
    }

    method WriteBytes(data: seq<byte>) returns (s: Status)
      requires Valid()
      modifies this`length, buffer
      ensures Valid() && (s, Contents()) == Put(old(Contents()), buffer.Length, [data])
    {
      if length + |data| > buffer.Length { return Fault(BufferTooSmall, length); }
      forall i | 0 <= i < |data| {
        buffer[length + i] := data[i];
      }
      length := length + |data|;
      assert Contents() == old(Contents()) + data;
      s := Done;
    }

    method WriteIdentifier(id: Identifier, constructed: bool) returns (s: Status)
      requires Valid() && id.number < TWO_TO_THE_32
      modifies this`length, buffer
      ensures Valid() && (s, Contents()) == Put(old(Contents()), buffer.Length, [EncodeIdentifier(id, constructed)])
    {
      var buf := new byte[6];
      var len := EncodeIdentifierInto(buf, id, constructed);
      s := WriteBytes(buf[..len]);
    }

    method WriteLength(n: nat) returns (s: Status)
      requires Valid() && n < TWO_TO_THE_64
      modifies this`length, buffer
      ensures Valid() && (s, Contents()) == Put(old(Contents()), buffer.Length, [EncodeLength(n)])
    {
      var buf := new byte[9];
      var len := EncodeLengthInto(buf, n);
      s := WriteBytes(buf[..len]);
    }

    method SerializePrimitive(id: Identifier, data: seq<byte>) returns (s: Status)
      requires Valid() && id.number < TWO_TO_THE_32 && |data| < TWO_TO_THE_64
      modifies this`length, buffer
      ensures Valid() && (s, Contents()) ==
                Put(old(Contents()), buffer.Length, [EncodeIdentifier(id, false), EncodeLength(|data|), data])
    {
      hide EncodeIdentifier, EncodeLength, Put;
      ghost var pieces := [EncodeIdentifier(id, false), EncodeLength(|data|), data];
      assert pieces == [pieces[0]] + [pieces[1], data] && [pieces[1], data] == [pieces[1]] + [data];
      PutThen(Contents(), buffer.Length, pieces[0], [pieces[1], data]);
      :- WriteIdentifier(id, false);
      PutThen(Contents(), buffer.Length, EncodeLength(|data|), [data]);
      :- WriteLength(|data|);
      if |data| > 0 {
        :- WriteBytes(data);
      } else {
        PutNothing(Contents(), buffer.Length);
      }
      s := Done;
    }

    lemma PutNothing(contents: seq<byte>, capacity: nat)
      requires |contents| <= capacity
      ensures Put(contents, capacity, [[]]) == (Done, contents)
    {
      assert contents + [] == contents;
    }

    method SerializeConstructedBegin(id: Identifier) returns (s: Status, marker: nat)
      requires Valid() && id.number < TWO_TO_THE_32
      modifies this`length, buffer
      ensures Valid() && (s, Contents()) ==
                Put(old(Contents()), buffer.Length, [EncodeIdentifier(id, true), [0x84, 0, 0, 0, 0]])
      ensures s == Done ==> marker == old(length) + |EncodeIdentifier(id, true)|
    {
      hide EncodeIdentifier;
      marker := 0;
      assert [EncodeIdentifier(id, true), PLACEHOLDER] == [EncodeIdentifier(id, true)] + [PLACEHOLDER];
      PutThen(Contents(), buffer.Length, EncodeIdentifier(id, true), [PLACEHOLDER]);
      s := WriteIdentifier(id, true);
      if s.Fault? { return; }
      marker := length;
      s := WriteBytes(PLACEHOLDER);
    }

    // memmove towards the front: ascending copies never overwrite what is still to be read.
    method MoveDown(to: nat, from: nat, n: nat)
      requires to <= from && from + n <= buffer.Length
      modifies buffer
      ensures buffer[..] == Spliced(old(buffer[..]), to, old(buffer[from..from + n]))
    {
      for i := 0 to n
        invariant forall k :: 0 <= k < to || to + i <= k < buffer.Length ==> buffer[k] == old(buffer[k])
        invariant buffer[to..to + i] == old(buffer[from..from + i])
      {
        buffer[to + i] := buffer[from + i];
      }
    }

    // memcpy of the length octets over the placeholder.
    method StoreAt(at: nat, bytes: array<byte>, n: nat)
      requires at + n <= buffer.Length && n <= bytes.Length && bytes != buffer
      modifies buffer
      ensures buffer[..] == Spliced(old(buffer[..]), at, bytes[..n])
    {
      forall i | 0 <= i < n {
        buffer[at + i] := bytes[i];
      }
    }

    method SerializeConstructedEnd(marker: nat) returns (s: Status)
      requires Valid() && marker + 5 <= length && length < TWO_TO_THE_64
      modifies this`length, buffer
      ensures Valid()
      ensures var before, content := old(Contents())[..marker], old(Contents())[marker + 5..];
              if |content| < TWO_TO_THE_32 then s == Done && Contents() == before + EncodeLength(|content|) + content
              else s == Fault(BufferTooSmall, old(length)) && Contents() == old(Contents())
    {
      hide EncodeLength, Spliced;
      var contentStart := marker + 5;
      var contentLength := length - contentStart;
      ghost var all := buffer[..];
      var lengthBuf := new byte[9];
      var lengthBytes := EncodeLengthInto(lengthBuf, contentLength);
      ShortLength(contentLength);
      if lengthBytes > 5 { return Fault(BufferTooSmall, length); }
      assert buffer[contentStart..contentStart + contentLength] == all[contentStart..length];
      Shrink(all, marker, length, lengthBuf[..lengthBytes]);
      if 5 - lengthBytes > 0 {
        MoveDown(marker + lengthBytes, contentStart, contentLength);
        length := length - (5 - lengthBytes);
      }
      StoreAt(marker, lengthBuf, lengthBytes);
      assert Contents() == buffer[..][..length];
      assert old(Contents()) == all[..old(length)];
      s := Done;
    }
  }

  // all with piece written over it at position at.
  ghost function Spliced(all: seq<byte>, at: nat, piece: seq<byte>): (r: seq<byte>)
    requires at + |piece| <= |all|
    ensures |r| == |all|
  {
    all[..at] + piece + all[at + |piece|..]
  }

  // Shifting the content down to the end of the length octets, then storing these.
  lemma Shrink(all: seq<byte>, marker: nat, length: nat, octets: seq<byte>)
    requires marker + 5 <= length <= |all| && |octets| <= 5
    ensures var content := all[marker + 5..length];
            var moved := Spliced(all, marker + |octets|, content);
            && Spliced(moved, marker, octets)[..length - (5 - |octets|)]
               == all[..length][..marker] + octets + all[..length][marker + 5..]
            && (|octets| == 5 ==> moved == all)
  {
    var content := all[marker + 5..length];
    var moved := Spliced(all, marker + |octets|, content);
    assert moved[..marker] == all[..marker];
    assert moved[marker + |octets|..][..|content|] == content;
    assert all[..length][marker + 5..] == content;
  }
}
