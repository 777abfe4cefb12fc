/** The loops of `libp2p/multiaddress.nim` over one cursor, each proved against the component view of
    `Multiaddress`. */
module MultiaddressScan {
  import opened Basics
  import opened Varint
  import opened VBuffers
  import opened Multiaddress

  method ReadPayload(cursor: VBuffer, proto: Protocol) returns (r: Option<seq<byte>>)
    requires cursor.Valid()
    modifies cursor`offset
    ensures cursor.Valid()
    ensures match TakePayload(proto, old(cursor.Rest()))
      case None => r == None
      case Some((payload, rest)) => r == Some(payload) && cursor.Rest() == rest
  {
    match proto.kind
    case Fixed =>
      var n, data := cursor.ReadArray(proto.size);
      r := if n == -1 then None else Some(data);
    case Marker =>
      r := Some([]);
    case _ =>
      var n, data := cursor.ReadSeq();
      r := if n == -1 then None else Some(data);
  }

  /** Writes one component into a fresh buffer. */
  method BuildPart(reg: Registry, header: nat, payload: seq<byte>) returns (part: Address)
    requires Readable(reg, Component(header, payload))
    ensures part == PartBytes(reg, Component(header, payload))
  {
    hide Leb128, TakeVarint, TakeSeq;
    var res := new VBuffer([]);
    res.WriteVarint(header);
    match reg.protocols[header].kind {
      case Fixed => res.WriteArray(payload);
      case Marker =>
      case _ => res.WriteSeq(payload);
    }
    res.Finish();
    part := res.buffer;
  }

  method Validate(reg: Registry, ma: Address) returns (ok: bool)
    ensures ok == Valid(reg, ma)
  {
    hide TakeVarint, TakePayload;
    var cursor := new VBuffer(ma);
    while !cursor.IsEmpty()
      invariant cursor.Valid() && fresh(cursor)
      invariant Valid(reg, cursor.Rest()) == Valid(reg, ma)
      decreases |cursor.Rest()|
    {
      ghost var before := cursor.Rest();
      var n, header := cursor.ReadVarint();
      if n == -1 || header !in reg.protocols {
        return false;
      }
      var proto := reg.protocols[header];
      var payload := ReadPayload(cursor, proto);
      if payload.None? {
        return false;
      }
      HeadSplits(reg, before, Component(header, payload.value), cursor.Rest());
      if !proto.kind.Marker? && (proto.coder.None? || !proto.coder.value.valid(payload.value)) {
        return false;
      }
    }
    ok := true;
  }

  /** `items`: the parts it yields, each rebuilt from its fields, and whether it ends without an error. */
  method ItemsOf(reg: Registry, ma: Address) returns (codes: seq<nat>, parts: seq<Address>, complete: bool)
    ensures complete == Items(reg, ma).complete
    ensures |codes| == |parts| == |Items(reg, ma).parts|
    ensures forall i :: 0 <= i < |parts| ==>
      codes[i] == Items(reg, ma).parts[i].code && parts[i] == PartBytes(reg, Items(reg, ma).parts[i])
  {
    hide TakeVarint, TakePayload, PartBytes;
    var cursor := new VBuffer(ma);
    codes, parts := [], [];
    ghost var seen: seq<Component> := [];
    while !cursor.IsEmpty()
      invariant cursor.Valid() && fresh(cursor)
      invariant Items(reg, ma).parts == seen + Items(reg, cursor.Rest()).parts
      invariant Items(reg, ma).complete == Items(reg, cursor.Rest()).complete
      invariant |codes| == |parts| == |seen|
      invariant forall i :: 0 <= i < |seen| ==> codes[i] == seen[i].code && parts[i] == PartBytes(reg, seen[i])
      decreases |cursor.Rest()|
    {
      ghost var before := cursor.Rest();
      var n, header := cursor.ReadVarint();
      if n == -1 || header !in reg.protocols {
        return codes, parts, false;
      }
      var payload := ReadPayload(cursor, reg.protocols[header]);
      if payload.None? || (HasPrefix(reg.protocols[header].kind) && payload.value == []) {
        return codes, parts, false;
      }
      ghost var c := Component(header, payload.value);
      HeadSplits(reg, before, c, cursor.Rest());
      var part := BuildPart(reg, header, payload.value);
      codes, parts, seen := codes + [header], parts + [part], seen + [c];
    }
    complete := true;
  }

  method GetPartAt(reg: Registry, ma: Address, index: int) returns (r: Option<Address>)
    ensures r == if index < 0 then None else GetPart(reg, ma, index)
  {
    hide TakeVarint, TakePayload, PartBytes;
    if index < 0 {
      return None;
    }
    var cursor := new VBuffer(ma);
    var offset := 0;
    r := None;
    while offset <= index
      invariant 0 <= offset <= index + 1
      invariant cursor.Valid() && fresh(cursor)
      invariant offset <= index ==> GetPart(reg, ma, index) == GetPart(reg, cursor.Rest(), index - offset)
      invariant offset == index + 1 ==> r == GetPart(reg, ma, index)
    {
      ghost var before := cursor.Rest();
      var n, header := cursor.ReadVarint();
      if n == -1 || header !in reg.protocols {
        return None;
      }
      var payload := ReadPayload(cursor, reg.protocols[header]);
      if payload.None? {
        return None;
      }
      HeadSplits(reg, before, Component(header, payload.value), cursor.Rest());
      if offset == index {
        var part := BuildPart(reg, header, payload.value);
        r := Some(part);
      }
      offset := offset + 1;
    }
  }

  /** `append`: true when the grown address validates. */
  method Append(reg: Registry, ma: Address, part: Address) returns (grown: Address, ok: bool)
    ensures grown == ma + part && ok == Valid(reg, ma + part)
  {
    grown := ma + part;
    ok := Validate(reg, grown);
  }

  /** `ma[a .. b]`. */
  method GetParts(reg: Registry, ma: Address, a: int, b: int) returns (r: Option<Address>)
    ensures r == SliceOf(reg, ma, a, b)
  {
    hide Valid, GetPart;
    var res: Address := [];
    var i := a;
    while i <= b
      invariant a <= i && (a <= b ==> i <= b + 1)
      invariant Rebuilt(reg, ma, i, b, res) == SliceOf(reg, ma, a, b)
    {
      var part := GetPartAt(reg, ma, i);
      if part.None? {
        return None;
      }
      var ok;
      res, ok := Append(reg, res, part.value);
      if !ok {
        return None;
      }
      i := i + 1;
    }
    r := Some(res);
  }
}
