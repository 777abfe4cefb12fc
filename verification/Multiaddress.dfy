/** Binary multiaddresses of `libp2p/multiaddress.nim`: a buffer is a run of components, each a
    protocol code and, depending on the protocol, a fixed, length-prefixed or absent payload. */
module Multiaddress {
  import opened Basics
  import opened Multicodec
  import opened Varint
  import opened VBuffers

  /** How a protocol carries its payload. An unregistered code is the source's `None` kind. */
  datatype Kind = Fixed | Length | Path | Marker

  /** A payload's text form and its validity. The cursor handling the three procs of the source share
      is done by the callers here. */
  datatype Transcoder = Transcoder(
    parse: string -> Option<seq<byte>>,
    show: seq<byte> -> Option<string>,
    valid: seq<byte> -> bool)

  datatype Protocol = Protocol(name: string, kind: Kind, size: nat, coder: Option<Transcoder>)

  /** The protocol table by code, and the codes of all multicodec names. */
  datatype Registry = Registry(protocols: map<nat, Protocol>, names: map<string, nat>)

  type Address = seq<byte>

  datatype Component = Component(code: nat, payload: seq<byte>)

  predicate HasPrefix(k: Kind) {
    k.Length? || k.Path?
  }

  /** A payload with the length prefix its protocol asks for. */
  function Framed(p: Protocol, payload: seq<byte>): seq<byte> {
    if HasPrefix(p.kind) then Leb128(|payload|) + payload else payload
  }

  /** The bytes of one component. */
  function PartBytes(reg: Registry, c: Component): Address {
    Leb128(c.code) + if c.code in reg.protocols then Framed(reg.protocols[c.code], c.payload) else c.payload
  }

  /** The bytes of a component, laid out: the code, the length of the payload where the protocol is prefixed,
      and the payload; `n` and `m` are where the length and the payload begin. */
  lemma {:induction false} PartWire(reg: Registry, c: Component) returns (n: nat, m: nat)
    requires c.code in reg.protocols
    ensures n <= m <= |PartBytes(reg, c)|
    ensures WireForm(PartBytes(reg, c)[..n]) && Value(PartBytes(reg, c)[..n]) == c.code
    ensures var kind := reg.protocols[c.code].kind;
            if kind == Length || kind == Path
            then WireForm(PartBytes(reg, c)[n..m]) && Value(PartBytes(reg, c)[n..m]) == |c.payload|
            else m == n
    ensures PartBytes(reg, c)[m..] == c.payload
  {
    hide Leb128, WireForm, Value;
    EncodedForm(c.code);
    n := |Leb128(c.code)|;
    m := n;
    var bs := PartBytes(reg, c);
    assert bs[..n] == Leb128(c.code);
    if HasPrefix(reg.protocols[c.code].kind) {
      EncodedForm(|c.payload|);
      m := n + |Leb128(|c.payload|)|;
      assert bs[n..m] == Leb128(|c.payload|);
    }
  }

  /** Payloads a protocol can carry. */
  predicate Fits(p: Protocol, payload: seq<byte>) {
    match p.kind
    case Fixed => |payload| == p.size
    case Marker => payload == []
    case _ => |payload| < LIMIT63
  }

  /** Components a cursor can read: `getPart` takes them all. */
  predicate Readable(reg: Registry, c: Component) {
    && c.code in reg.protocols
    && c.code < LIMIT63
    && Fits(reg.protocols[c.code], c.payload)
  }

  /** Components the iterator yields: a prefixed payload must not be empty. */
  predicate Yieldable(reg: Registry, c: Component) {
    Readable(reg, c) && (HasPrefix(reg.protocols[c.code].kind) ==> c.payload != [])
  }

  /** Components `validate` passes: the transcoder has to accept the payload. */
  predicate Accepted(reg: Registry, c: Component) {
    && Readable(reg, c)
    && (reg.protocols[c.code].kind.Marker?
        || (reg.protocols[c.code].coder.Some? && reg.protocols[c.code].coder.value.valid(c.payload)))
  }

  /** What the model needs of a registry: no transcoder accepts an empty prefixed payload, and the
      codes the code names are registered the way `ProtocolsList` does. */
  ghost predicate Sound(reg: Registry) {
    && (forall code :: code in reg.protocols ==>
          HasPrefix(reg.protocols[code].kind) && reg.protocols[code].coder.Some? ==>
            !reg.protocols[code].coder.value.valid([]))
    && IpProtocol(reg, IP4_CODE, 4)
    && IpProtocol(reg, IP6_CODE, 16)
    && P2P_CODE in reg.protocols
    && reg.protocols[P2P_CODE].kind.Length?
    && reg.protocols[P2P_CODE].coder.Some?
  }

  ghost predicate IpProtocol(reg: Registry, code: nat, size: nat) {
    && code in reg.protocols
    && reg.protocols[code].kind.Fixed?
    && reg.protocols[code].size == size
    && reg.protocols[code].coder.Some?
    && forall ip :: |ip| == size ==> reg.protocols[code].coder.value.valid(ip)
  }

  /** Reads a payload the way its protocol carries it. */
  function TakePayload(p: Protocol, bs: seq<byte>): (r: Option<(seq<byte>, seq<byte>)>)
    ensures r.Some? ==> |r.value.1| <= |bs|
  {
    match p.kind
    case Fixed => TakeArray(bs, p.size)
    case Marker => Some(([], bs))
    case _ => TakeSeq(bs)
  }

  /** Reads one component. */
  function Head(reg: Registry, bs: seq<byte>): (r: Option<(Component, seq<byte>)>)
    ensures r.Some? ==> |r.value.1| < |bs|
  {
    match TakeVarint(bs)
    case None => None
    case Some((code, body)) =>
      if code !in reg.protocols then None
      else
        match TakePayload(reg.protocols[code], body)
        case None => None
        case Some((payload, rest)) => Some((Component(code, payload), rest))
  }

  /** Reading a component is the inverse of writing it, whatever follows. */
  lemma {:induction false} HeadIff(reg: Registry, bs: seq<byte>, c: Component, rest: seq<byte>)
    ensures Head(reg, bs) == Some((c, rest)) <==> Readable(reg, c) && bs == PartBytes(reg, c) + rest
  {
    hide Head, PartBytes;
    if Head(reg, bs) == Some((c, rest)) {
      HeadSplits(reg, bs, c, rest);
    }
    if Readable(reg, c) {
      HeadEncoded(reg, c, rest);
    }
  }

  lemma {:induction false} TakePayloadIff(p: Protocol, bs: seq<byte>, payload: seq<byte>, rest: seq<byte>)
    ensures TakePayload(p, bs) == Some((payload, rest)) <==> Fits(p, payload) && bs == Framed(p, payload) + rest
  {
    hide Leb128, TakeSeq;
    if HasPrefix(p.kind) {
      TakeSeqIff(bs, payload, rest);
    } else if bs == payload + rest {
      assert bs[..|payload|] == payload && bs[|payload|..] == rest;
    }
  }

  lemma {:induction false} HeadSplits(reg: Registry, bs: seq<byte>, c: Component, rest: seq<byte>)
    requires Head(reg, bs) == Some((c, rest))
    ensures Readable(reg, c) && bs == PartBytes(reg, c) + rest
  {
    hide Leb128, TakeVarint, TakePayload, Framed;
    var (code, body) := TakeVarint(bs).value;
    var p := reg.protocols[code];
    TakeVarintIff(bs, code, body);
    TakePayloadIff(p, body, c.payload, rest);
    Assoc(Leb128(code), Framed(p, c.payload), rest);
  }

  lemma {:induction false} HeadEncoded(reg: Registry, c: Component, rest: seq<byte>)
    requires Readable(reg, c)
    ensures Head(reg, PartBytes(reg, c) + rest) == Some((c, rest))
  {
    hide Leb128, TakeVarint, TakePayload, Framed;
    var p := reg.protocols[c.code];
    var body := Framed(p, c.payload) + rest;
    Assoc(Leb128(c.code), Framed(p, c.payload), rest);
    TakeVarintIff(PartBytes(reg, c) + rest, c.code, body);
    TakePayloadIff(p, body, c.payload, rest);
  }

  /** What `items` yields before it stops, and whether it stopped at the end of the buffer. */
  datatype Listing = Listing(parts: seq<Component>, complete: bool)

  function Items(reg: Registry, bs: Address): Listing
    decreases |bs|
  {
    if bs == [] then Listing([], true)
    else
      match Head(reg, bs)
      case None => Listing([], false)
      case Some((c, rest)) =>
        if HasPrefix(reg.protocols[c.code].kind) && c.payload == [] then Listing([], false)
        else
          var tail := Items(reg, rest);
          Listing([c] + tail.parts, tail.complete)
  }

  function Flatten(reg: Registry, parts: seq<Component>): Address {
    if parts == [] then [] else PartBytes(reg, parts[0]) + Flatten(reg, parts[1..])
  }

  predicate Valid(reg: Registry, bs: Address)
    decreases |bs|
  {
    bs == []
    || match Head(reg, bs)
       case None => false
       case Some((c, rest)) => Accepted(reg, c) && Valid(reg, rest)
  }

  /** The yielded parts are the buffer, up to the point where the iterator stops. */
  lemma {:induction false} ItemsRebuild(reg: Registry, bs: Address)
    ensures Flatten(reg, Items(reg, bs).parts) <= bs
    ensures Items(reg, bs).complete ==> Flatten(reg, Items(reg, bs).parts) == bs
    ensures forall c :: c in Items(reg, bs).parts ==> Yieldable(reg, c)
    decreases |bs|
  {
    hide Head, PartBytes;
    if bs != [] && Head(reg, bs).Some? {
      var (c, rest) := Head(reg, bs).value;
      HeadSplits(reg, bs, c, rest);
      if Items(reg, bs).parts != [] {
        ItemsRebuild(reg, rest);
        assert Items(reg, bs).parts[1..] == Items(reg, rest).parts;
      }
    }
  }

  /** Any list of yieldable components is what the iterator reads back from its bytes; what follows
      them is read on its own. */
  lemma {:induction false} ItemsOfFlatten(reg: Registry, parts: seq<Component>, rest: Address)
    requires forall c :: c in parts ==> Yieldable(reg, c)
    ensures Items(reg, Flatten(reg, parts) + rest)
      == Listing(parts + Items(reg, rest).parts, Items(reg, rest).complete)
  {
    hide Head, PartBytes;
    var tail := Items(reg, rest);
    if parts == [] {
      assert Flatten(reg, parts) + rest == rest;
      assert parts + tail.parts == tail.parts;
    } else {
      var more := parts[1..];
      var body := Flatten(reg, more) + rest;
      Assoc(PartBytes(reg, parts[0]), Flatten(reg, more), rest);
      assert Yieldable(reg, parts[0]);
      HeadEncoded(reg, parts[0], body);
      ItemsOfFlatten(reg, more, rest);
      assert [parts[0]] + (more + tail.parts) == parts + tail.parts;
    }
  }

  /** `items` of a concatenation is `items` of the one followed by `items` of the other. */
  lemma {:induction false} ItemsOfConcat(reg: Registry, a: Address, b: Address)
    requires Items(reg, a).complete
    ensures Items(reg, a + b).parts == Items(reg, a).parts + Items(reg, b).parts
    ensures Items(reg, a + b).complete == Items(reg, b).complete
  {
    ItemsRebuild(reg, a);
    ItemsOfFlatten(reg, Items(reg, a).parts, b);
  }

  lemma {:induction false} FlattenAppend(reg: Registry, xs: seq<Component>, ys: seq<Component>)
    ensures Flatten(reg, xs + ys) == Flatten(reg, xs) + Flatten(reg, ys)
  {
    if xs == [] {
      assert xs + ys == ys;
    } else {
      assert (xs + ys)[1..] == xs[1..] + ys;
      FlattenAppend(reg, xs[1..], ys);
    }
  }

  /** A buffer validates exactly when the iterator reads all of it and every part it yields passes
      its transcoder. */
  lemma {:induction false} ValidIffItems(reg: Registry, bs: Address)
    requires Sound(reg)
    ensures Valid(reg, bs)
      <==> Items(reg, bs).complete && forall c :: c in Items(reg, bs).parts ==> Accepted(reg, c)
    ensures Valid(reg, bs)
      <==> Items(reg, bs).complete && forall c :: c in Items(reg, bs).parts ==>
             && c.code in reg.protocols
             && (|| reg.protocols[c.code].kind == Marker
                 || (reg.protocols[c.code].coder.Some? && reg.protocols[c.code].coder.value.valid(c.payload)))
    decreases |bs|
  {
    hide Head, PartBytes;
    ItemsRebuild(reg, bs);
    if bs != [] && Head(reg, bs).Some? {
      var (c, rest) := Head(reg, bs).value;
      HeadSplits(reg, bs, c, rest);
      ValidIffItems(reg, rest);
      var all := Items(reg, bs).parts;
      if all != [] {
        assert all[1..] == Items(reg, rest).parts && all[0] == c;
        assert forall d :: d in all <==> d == c || d in all[1..];
      }
    }
  }

  /** The valid addresses are exactly the byte strings of lists of accepted components. */
  lemma {:induction false} ValidOfFlatten(reg: Registry, parts: seq<Component>)
    requires Sound(reg)
    requires forall c :: c in parts ==> Accepted(reg, c)
    ensures Valid(reg, Flatten(reg, parts))
    ensures Items(reg, Flatten(reg, parts)) == Listing(parts, true)
  {
    ItemsOfFlatten(reg, parts, []);
    assert Flatten(reg, parts) + [] == Flatten(reg, parts);
    assert parts + Items(reg, []).parts == parts;
    ValidIffItems(reg, Flatten(reg, parts));
  }

  /** `concat` and `append`: the bytes one after the other, if the result validates. */
  function Concat(reg: Registry, a: Address, b: Address): Option<Address> {
    if Valid(reg, a + b) then Some(a + b) else None
  }

  /** Concatenating onto a fully readable address succeeds exactly when both sides are valid. */
  lemma {:induction false} ConcatIff(reg: Registry, a: Address, b: Address)
    requires Sound(reg) && Items(reg, a).complete
    ensures Concat(reg, a, b).Some? <==> Valid(reg, a) && Valid(reg, b)
  {
    ItemsOfConcat(reg, a, b);
    ValidIffItems(reg, a);
    ValidIffItems(reg, b);
    ValidIffItems(reg, a + b);
    var ps, qs := Items(reg, a).parts, Items(reg, b).parts;
    assert forall c :: c in ps + qs <==> c in ps || c in qs;
  }

  /** `getPart`: skips `index` components and rebuilds the next one. */
  function GetPart(reg: Registry, bs: Address, index: nat): Option<Address>
    decreases index
  {
    match Head(reg, bs)
    case None => None
    case Some((c, rest)) => if index == 0 then Some(PartBytes(reg, c)) else GetPart(reg, rest, index - 1)
  }

  /** `ma[i]` is the bytes of the part the iterator yields at `i`, and an error past the end. */
  lemma {:induction false} GetPartOfItems(reg: Registry, bs: Address, index: nat)
    ensures index < |Items(reg, bs).parts| ==>
      GetPart(reg, bs, index) == Some(PartBytes(reg, Items(reg, bs).parts[index]))
    ensures Items(reg, bs).complete && index >= |Items(reg, bs).parts| ==> GetPart(reg, bs, index) == None
    decreases index
  {
    hide Head;
    if bs != [] && Head(reg, bs).Some? && index > 0 {
      var (c, rest) := Head(reg, bs).value;
      GetPartOfItems(reg, rest, index - 1);
    }
  }

  /** `getParts`: appends the parts `i .. b` to `res` one by one, validating after each. */
  function Rebuilt(reg: Registry, bs: Address, i: int, b: int, res: Address): Option<Address>
    decreases b - i + 1
  {
    if i > b then Some(res)
    else if i < 0 then None
    else
      match GetPart(reg, bs, i)
      case None => None
      case Some(part) =>
        match Concat(reg, res, part)
        case None => None
        case Some(grown) => Rebuilt(reg, bs, i + 1, b, grown)
  }

  function SliceOf(reg: Registry, bs: Address, a: int, b: int): Option<Address> {
    Rebuilt(reg, bs, a, b, [])
  }

  /** The parts `a .. b`, when the address has them. */
  function Slice(reg: Registry, bs: Address, a: int, b: int): Option<Address> {
    var parts := Items(reg, bs).parts;
    if b < a then Some([])
    else if a < 0 || b >= |parts| then None
    else Some(Flatten(reg, parts[a..b + 1]))
  }

  lemma {:induction false} SubsetAccepted(reg: Registry, bs: Address, a: nat, b: nat)
    requires Sound(reg) && Valid(reg, bs) && a <= b <= |Items(reg, bs).parts|
    ensures Valid(reg, Flatten(reg, Items(reg, bs).parts[a..b]))
    ensures Items(reg, Flatten(reg, Items(reg, bs).parts[a..b])) == Listing(Items(reg, bs).parts[a..b], true)
  {
    ValidIffItems(reg, bs);
    ValidOfFlatten(reg, Items(reg, bs).parts[a..b]);
  }

  /** Splitting a valid address between two parts and joining it again changes nothing. */
  lemma {:induction false} SlicesRejoin(reg: Registry, bs: Address, k: nat)
    requires Sound(reg) && Valid(reg, bs) && k <= |Items(reg, bs).parts|
    ensures var n := |Items(reg, bs).parts|;
      Slice(reg, bs, 0, k - 1).Some? && Slice(reg, bs, k, n - 1).Some?
      && Concat(reg, Slice(reg, bs, 0, k - 1).value, Slice(reg, bs, k, n - 1).value) == Some(bs)
  {
    hide Items, Valid;
    var parts := Items(reg, bs).parts;
    ValidIffItems(reg, bs);
    ItemsRebuild(reg, bs);
    var left, right := parts[0..k], parts[k..|parts|];
    assert parts == left + right;
    FlattenAppend(reg, left, right);
    assert Slice(reg, bs, 0, k - 1) == Some(Flatten(reg, left));
    assert Slice(reg, bs, k, |parts| - 1) == Some(Flatten(reg, right));
  }

  lemma {:induction false} FlattenOne(reg: Registry, c: Component)
    ensures Flatten(reg, [c]) == PartBytes(reg, c)
  {
    hide PartBytes;
    assert [c][1..] == [];
    assert Flatten(reg, []) == [];
  }

  /** One more part onto a slice. */
  lemma {:induction false} SliceStep(reg: Registry, bs: Address, a: nat, i: nat)
    requires Sound(reg) && Valid(reg, bs) && a <= i < |Items(reg, bs).parts|
    ensures var parts := Items(reg, bs).parts;
      Flatten(reg, parts[a..i + 1]) == Flatten(reg, parts[a..i]) + PartBytes(reg, parts[i])
      && Valid(reg, Flatten(reg, parts[a..i + 1]))
  {
    hide Items, Head, PartBytes, Valid;
    var parts := Items(reg, bs).parts;
    assert parts[a..i + 1] == parts[a..i] + [parts[i]];
    FlattenAppend(reg, parts[a..i], [parts[i]]);
    FlattenOne(reg, parts[i]);
    SubsetAccepted(reg, bs, a, i + 1);
  }

  lemma {:induction false} RebuiltIsSlice(reg: Registry, bs: Address, a: nat, i: nat, b: int)
    requires Sound(reg) && Valid(reg, bs) && a <= i <= b + 1 && i <= |Items(reg, bs).parts|
    ensures Rebuilt(reg, bs, i, b, Flatten(reg, Items(reg, bs).parts[a..i]))
      == if b >= |Items(reg, bs).parts| then None else Some(Flatten(reg, Items(reg, bs).parts[a..b + 1]))
    decreases b - i + 1
  {
    hide Items, Head, PartBytes, Valid, Flatten, GetPart;
    if i <= b {
      ValidIffItems(reg, bs);
      GetPartOfItems(reg, bs, i);
      if i < |Items(reg, bs).parts| {
        SliceStep(reg, bs, a, i);
        RebuiltIsSlice(reg, bs, a, i + 1, b);
      }
    }
  }

  /** On a valid address a slice is exactly the parts it names, and one that leaves the address fails. */
  lemma {:induction false} SliceOfValid(reg: Registry, bs: Address, a: int, b: int)
    requires Sound(reg) && Valid(reg, bs)
    ensures SliceOf(reg, bs, a, b) == Slice(reg, bs, a, b)
  {
    hide Items, Head, PartBytes, Valid, GetPart;
    if 0 <= a <= b {
      if a <= |Items(reg, bs).parts| {
        assert Items(reg, bs).parts[a..a] == [];
        RebuiltIsSlice(reg, bs, a, a, b);
      } else {
        ValidIffItems(reg, bs);
        GetPartOfItems(reg, bs, a);
      }
    }
  }
}
