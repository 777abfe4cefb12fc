/** The growing, cursor-moving buffer of `libp2p/vbuffer.nim`. A write lands at the cursor and moves
    it, `Finish` rewinds it, and a read consumes from it. */
module VBuffers {
  import opened Basics
  import opened Varint

  /** What a read of a varint sees in `bs`: the value and what follows it. */
  function TakeVarint(bs: seq<byte>): (r: Option<(nat, seq<byte>)>)
    ensures r.Some? ==> |r.value.1| < |bs|
  {
    match GetUVarint(bs)
    case Ok((v, n)) => AcceptedIffEncoded(bs, v, n); Some((v, bs[n..]))
    case Err(_) => None
  }

  /** What a read of a length-prefixed array sees in `bs`. */
  function TakeSeq(bs: seq<byte>): (r: Option<(seq<byte>, seq<byte>)>)
    ensures r.Some? ==> |r.value.1| < |bs|
  {
    match TakeVarint(bs)
    case Some((size, rest)) => if size <= |rest| then Some((rest[..size], rest[size..])) else None
    case None => None
  }

  /** What a read of `size` bytes sees in `bs`. */
  function TakeArray(bs: seq<byte>, size: nat): Option<(seq<byte>, seq<byte>)> {
    if size <= |bs| then Some((bs[..size], bs[size..])) else None
  }

  lemma {:induction false} TakeVarintIff(bs: seq<byte>, v: nat, rest: seq<byte>)
    ensures TakeVarint(bs) == Some((v, rest)) <==> v < LIMIT63 && bs == Leb128(v) + rest
  {
    if TakeVarint(bs) == Some((v, rest)) {
      AcceptedIffEncoded(bs, v, GetUVarint(bs).value.1);
    }
    if v < LIMIT63 && bs == Leb128(v) + rest {
      DecodeEncoded(v, rest);
    }
  }

  lemma {:induction false} TakeSeqSplits(bs: seq<byte>, data: seq<byte>, rest: seq<byte>)
    requires TakeSeq(bs) == Some((data, rest))
    ensures |data| < LIMIT63 && bs == Leb128(|data|) + data + rest
  {
    hide Leb128, TakeVarint;
    var (size, tail) := TakeVarint(bs).value;
    TakeVarintIff(bs, size, tail);
    assert tail == data + rest;
    Assoc(Leb128(size), data, rest);
  }

  lemma {:induction false} TakeSeqEncoded(data: seq<byte>, rest: seq<byte>)
    requires |data| < LIMIT63
    ensures TakeSeq(Leb128(|data|) + data + rest) == Some((data, rest))
  {
    hide Leb128, TakeVarint;
    var head, tail := Leb128(|data|), data + rest;
    Assoc(head, data, rest);
    TakeVarintIff(head + tail, |data|, tail);
    assert tail[..|data|] == data && tail[|data|..] == rest;
  }

  lemma {:induction false} TakeSeqIff(bs: seq<byte>, data: seq<byte>, rest: seq<byte>)
    ensures TakeSeq(bs) == Some((data, rest)) <==> |data| < LIMIT63 && bs == Leb128(|data|) + data + rest
  {
    hide Leb128, TakeSeq;
    if TakeSeq(bs) == Some((data, rest)) {
      TakeSeqSplits(bs, data, rest);
    }
    if |data| < LIMIT63 {
      TakeSeqEncoded(data, rest);
    }
  }

  function Zeros(n: nat): (z: seq<byte>) {
    seq(n, _ => 0)
  }

  /** `data` over the bytes at `offset`. */
  function Overwritten(buffer: seq<byte>, offset: nat, data: seq<byte>): (s: seq<byte>)
    requires offset + |data| <= |buffer|
  {
    buffer[..offset] + data + buffer[offset + |data|..]
  }

  lemma {:induction false} OverwrittenLength(buffer: seq<byte>, offset: nat, data: seq<byte>)
    requires offset + |data| <= |buffer|
    ensures |Overwritten(buffer, offset, data)| == |buffer|
  {
  }

  lemma {:induction false} OverwrittenByNothing(buffer: seq<byte>, offset: nat)
    requires offset <= |buffer|
    ensures Overwritten(buffer, offset, []) == buffer
  {
  }

  lemma {:induction false} OneMoreByte(buffer: seq<byte>, offset: nat, data: seq<byte>, k: nat)
    requires k < |data| && offset + |data| <= |buffer|
    ensures |Overwritten(buffer, offset, data[..k])| == |buffer|
    ensures Overwritten(buffer, offset, data[..k])[offset + k := data[k]] == Overwritten(buffer, offset, data[..k + 1])
  {
  }

  lemma {:induction false} OverwrittenTwice(buffer: seq<byte>, offset: nat, a: seq<byte>, b: seq<byte>)
    requires offset + |a| + |b| <= |buffer|
    ensures |Overwritten(buffer, offset, a)| == |buffer|
    ensures Overwritten(Overwritten(buffer, offset, a), offset + |a|, b) == Overwritten(buffer, offset, a + b)
  {
    var mid := Overwritten(buffer, offset, a);
    assert mid[..offset + |a|] == buffer[..offset] + a;
    assert mid[offset + |a| + |b|..] == buffer[offset + |a| + |b|..];
  }

  /** What growing a buffer by the size of the data and putting the data at `offset` leaves. */
  lemma {:induction false} Written(buffer: seq<byte>, offset: nat, data: seq<byte>)
    requires offset <= |buffer|
    ensures var s := Overwritten(buffer + Zeros(|data|), offset, data);
            && |s| == |buffer| + |data|
            && s[..offset] == buffer[..offset]
            && s[offset..] == data + s[offset + |data|..]
            && (offset == |buffer| ==> s == buffer + data)
  {
  }

  lemma {:induction false} TookWhole(bs: seq<byte>, data: seq<byte>, rest: seq<byte>)
    requires bs == data + rest
    ensures TakeArray(bs, |data|) == Some((data, rest))
  {
  }

  class VBuffer {
    var buffer: seq<byte>
    var offset: nat

    ghost predicate Valid()
      reads this
    {
      offset <= |buffer|
    }

    /** The bytes the cursor has not passed. */
    function Rest(): seq<byte>
      requires Valid()
      reads this
    {
      buffer[offset..]
    }

    constructor (data: seq<byte>)
      ensures Valid() && buffer == data && offset == 0
    {
      buffer, offset := data, 0;
    }

    predicate IsEmpty()
      reads this
    {
      |buffer| - offset <= 0
    }

    predicate IsEnough(length: int)
      reads this
    {
      |buffer| - offset - length >= 0
    }

    /** Puts a varint over the bytes at the cursor. */
    method PutVarint(v: nat) returns (length: nat)
      requires Valid() && v < LIMIT63 && offset + |Leb128(v)| <= |buffer|
      modifies this`buffer
      ensures length == |Leb128(v)|
      ensures buffer == Overwritten(old(buffer), offset, Leb128(v))
    {
      hide Leb128, Value, WireForm;
      var tail := new byte[|buffer| - offset](i requires 0 <= i < |buffer| - offset reads this => buffer[offset + i]);
      ghost var was := tail[..];
      assert was == buffer[offset..];
      var res;
      res, length := PutUVarint(tail, v);
      assert was[length..] == buffer[offset + length..];
      Assoc(buffer[..offset], Leb128(v), was[length..]);
      buffer := buffer[..offset] + tail[..];
    }

    /** Copies the bytes over those at the cursor. */
    method CopyBytes(value: seq<byte>)
      requires Valid() && offset + |value| <= |buffer|
      modifies this`buffer
      ensures buffer == Overwritten(old(buffer), offset, value)
    {
      for k := 0 to |value|
        invariant buffer == Overwritten(old(buffer), offset, value[..k])
      {
        buffer := buffer[offset + k := value[k]];
        OneMoreByte(old(buffer), offset, value, k);
      }
      assert value[..|value|] == value;
    }

    /** `writeLPVarint`: a read at the old cursor gives the value, of which 63 bits are kept, and ends at
        the new one. */
    method WriteVarint(value: nat)
      requires Valid() && value < LIMIT64
      modifies this
      ensures Valid() && old(offset) <= offset && buffer[..old(offset)] == old(buffer)[..old(offset)]
      ensures TakeVarint(buffer[old(offset)..]) == Some((value % LIMIT63, Rest()))
      ensures old(offset) == old(|buffer|) ==> Rest() == [] && buffer == old(buffer) + Leb128(value % LIMIT63)
    {
      hide Leb128, TakeVarint, Overwritten;
      var v := value % LIMIT63;
      ghost var at, was := offset, buffer;
      buffer := buffer + Zeros(|Leb128(v)|);
      var length := PutVarint(v);
      offset := offset + length;
      Written(was, at, Leb128(v));
      TakeVarintIff(buffer[at..], v, buffer[offset..]);
    }

    /** `writeSeq`: a read of a prefixed array at the old cursor gives the value and ends at the new one. */
    method WriteSeq(value: seq<byte>)
      requires Valid() && |value| < LIMIT63
      modifies this
      ensures Valid() && old(offset) <= offset && buffer[..old(offset)] == old(buffer)[..old(offset)]
      ensures TakeSeq(buffer[old(offset)..]) == Some((value, Rest()))
      ensures old(offset) == old(|buffer|) ==> Rest() == [] && buffer == old(buffer) + (Leb128(|value|) + value)
    {
      hide Leb128, TakeSeq, Overwritten;
      ghost var at, was := offset, buffer;
      var head := Leb128(|value|);
      buffer := buffer + Zeros(|head| + |value|);
      ghost var grown := buffer;
      var length := PutVarint(|value|);
      offset := offset + length;
      OverwrittenLength(grown, at, head);
      if |value| > 0 {
        CopyBytes(value);
        offset := offset + |value|;
      } else {
        OverwrittenByNothing(buffer, offset);
      }
      OverwrittenTwice(grown, at, head, value);
      Written(was, at, head + value);
      TakeSeqIff(buffer[at..], value, buffer[offset..]);
    }

    /** `writeArray`: a read of that many bytes at the old cursor gives the value and ends at the new one. */
    method WriteArray(value: seq<byte>)
      requires Valid()
      modifies this
      ensures Valid() && old(offset) <= offset && buffer[..old(offset)] == old(buffer)[..old(offset)]
      ensures TakeArray(buffer[old(offset)..], |value|) == Some((value, Rest()))
      ensures old(offset) == old(|buffer|) ==> Rest() == [] && buffer == old(buffer) + value
    {
      hide Overwritten;
      ghost var at, was := offset, buffer;
      if |value| > 0 {
        buffer := buffer + Zeros(|value|);
        CopyBytes(value);
        offset := offset + |value|;
      } else {
        assert was + Zeros(0) == was;
        OverwrittenByNothing(was, at);
      }
      Written(was, at, value);
      TookWhole(buffer[at..], value, buffer[offset..]);
    }

    method Finish()
      modifies this
      ensures Valid() && buffer == old(buffer) && offset == 0
    {
      offset := 0;
    }

    method PeekVarint() returns (r: int, value: nat)
      requires Valid()
      ensures match TakeVarint(Rest())
        case None => r == -1 && value == 0
        case Some((v, rest)) => r >= 0 && value == v && offset + r <= |buffer| && buffer[offset + r..] == rest
    {
      r, value := -1, 0;
      if !IsEmpty() {
        var res := GetUVarint(Rest());
        if res.Ok? {
          r, value := res.value.1, res.value.0;
          AcceptedIffEncoded(Rest(), value, r);
          assert Rest()[r..] == buffer[offset + r..];
        }
      }
    }

    method PeekSeq() returns (r: int, value: seq<byte>)
      requires Valid()
      ensures match TakeSeq(Rest())
        case None => r == -1 && value == []
        case Some((data, rest)) => r >= 0 && value == data && offset + r <= |buffer| && buffer[offset + r..] == rest
    {
      r, value := -1, [];
      var length, size := PeekVarint();
      if !IsEmpty() && length != -1 {
        if size <= |buffer| - offset - length {
          value := buffer[offset + length..offset + length + size];
          r := length + size;
        }
      }
    }

    method PeekArray(size: nat) returns (r: int, value: seq<byte>)
      requires Valid()
      ensures match TakeArray(Rest(), size)
        case None => r == -1 && value == []
        case Some((data, rest)) => r == size && value == data && offset + r <= |buffer| && buffer[offset + r..] == rest
    {
      if IsEnough(size) {
        r, value := size, buffer[offset..offset + size];
        assert Rest()[..size] == value && Rest()[size..] == buffer[offset + size..];
      } else {
        r, value := -1, [];
      }
    }

    /** A failed read leaves the cursor where it was. */
    method ReadVarint() returns (r: int, value: nat)
      requires Valid()
      modifies this`offset
      ensures Valid()
      ensures match TakeVarint(old(Rest()))
        case None => r == -1 && offset == old(offset)
        case Some((v, rest)) => r >= 0 && value == v && Rest() == rest
    {
      r, value := PeekVarint();
      if r != -1 {
        offset := offset + r;
      }
    }

    method ReadSeq() returns (r: int, value: seq<byte>)
      requires Valid()
      modifies this`offset
      ensures Valid()
      ensures match TakeSeq(old(Rest()))
        case None => r == -1 && offset == old(offset)
        case Some((data, rest)) => r >= 0 && value == data && Rest() == rest
    {
      r, value := PeekSeq();
      if r != -1 {
        offset := offset + r;
      }
    }

    method ReadArray(size: nat) returns (r: int, value: seq<byte>)
      requires Valid()
      modifies this`offset
      ensures Valid()
      ensures match TakeArray(old(Rest()), size)
        case None => r == -1 && offset == old(offset)
        case Some((data, rest)) => r == size && value == data && Rest() == rest
    {
      r, value := PeekArray(size);
      if r != -1 {
        offset := offset + r;
      }
    }
  }

  /** One write, and the shape a later read of it needs. */
  datatype Field = Number(value: nat) | Prefixed(data: seq<byte>) | Raw(data: seq<byte>)

  predicate Writable(f: Field) {
    match f
    case Number(v) => v < LIMIT63
    case Prefixed(d) => |d| < LIMIT63
    case Raw(_) => true
  }

  function FieldBytes(f: Field): seq<byte> {
    match f
    case Number(v) => Leb128(v)
    case Prefixed(d) => Leb128(|d|) + d
    case Raw(d) => d
  }

  function Encoded(fields: seq<Field>): seq<byte> {
    if fields == [] then [] else FieldBytes(fields[0]) + Encoded(fields[1..])
  }

  lemma {:induction false} EncodedAppend(fields: seq<Field>, f: Field)
    ensures Encoded(fields + [f]) == Encoded(fields) + FieldBytes(f)
  {
    if fields != [] {
      assert (fields + [f])[1..] == fields[1..] + [f];
      EncodedAppend(fields[1..], f);
    }
  }

  method WriteField(vb: VBuffer, f: Field)
    requires vb.Valid() && vb.offset == |vb.buffer| && Writable(f)
    modifies vb
    ensures vb.Valid() && vb.offset == |vb.buffer| && vb.buffer == old(vb.buffer) + FieldBytes(f)
  {
    hide Leb128, TakeVarint, TakeSeq;
    match f
    case Number(v) => vb.WriteVarint(v);
    case Prefixed(d) => vb.WriteSeq(d);
    case Raw(d) => vb.WriteArray(d);
  }

  /** Reads one field of the shape of `f`, which is all that `f` is used for. */
  method ReadField(vb: VBuffer, f: Field, ghost rest: seq<byte>) returns (g: Field)
    requires vb.Valid() && Writable(f) && vb.Rest() == FieldBytes(f) + rest
    modifies vb`offset
    ensures vb.Valid() && g == f && vb.Rest() == rest
  {
    match f
    case Number(v) =>
      TakeVarintIff(vb.Rest(), v, rest);
      var _, value := vb.ReadVarint();
      g := Number(value);
    case Prefixed(d) =>
      TakeSeqIff(vb.Rest(), d, rest);
      var _, value := vb.ReadSeq();
      g := Prefixed(value);
    case Raw(d) =>
      assert vb.Rest()[..|d|] == d && vb.Rest()[|d|..] == rest;
      var _, value := vb.ReadArray(|d|);
      g := Raw(value);
  }

  /** Writes the fields one after the other into an empty buffer. */
  method WriteFields(fields: seq<Field>) returns (vb: VBuffer)
    requires forall f :: f in fields ==> Writable(f)
    ensures fresh(vb) && vb.Valid() && vb.offset == 0 && vb.buffer == Encoded(fields)
  {
    hide FieldBytes;
    vb := new VBuffer([]);
    for i := 0 to |fields|
      invariant vb.Valid() && vb.offset == |vb.buffer| && fresh(vb)
      invariant vb.buffer == Encoded(fields[..i])
    {
      WriteField(vb, fields[i]);
      EncodedAppend(fields[..i], fields[i]);
      assert fields[..i + 1] == fields[..i] + [fields[i]];
    }
    assert fields[..|fields|] == fields;
    vb.Finish();
  }

  /** Reads fields of the given shapes. */
  method ReadFields(vb: VBuffer, fields: seq<Field>) returns (back: seq<Field>)
    requires vb.Valid() && vb.Rest() == Encoded(fields)
    requires forall f :: f in fields ==> Writable(f)
    modifies vb`offset
    ensures vb.Valid() && back == fields && vb.Rest() == []
  {
    hide FieldBytes;
    back := [];
    assert fields[0..] == fields;
    for i := 0 to |fields|
      invariant vb.Valid() && vb.Rest() == Encoded(fields[i..])
      invariant back == fields[..i]
    {
      assert fields[i..][1..] == fields[i + 1..];
      var g := ReadField(vb, fields[i], Encoded(fields[i + 1..]));
      back := back + [g];
    }
  }

  /** Any sequence of writes into an empty buffer, then `Finish`, reads back in the same order and
      leaves nothing over. */
  method WriteThenRead(fields: seq<Field>) returns (back: seq<Field>, empty: bool)
    requires forall f :: f in fields ==> Writable(f)
    ensures back == fields && empty
  {
    var vb := WriteFields(fields);
    assert vb.Rest() == vb.buffer;
    back := ReadFields(vb, fields);
    empty := vb.IsEmpty();
  }
}
