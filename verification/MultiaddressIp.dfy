/** `getIp` and `replaceIp` of `libp2p/multiaddress.nim`. */
module MultiaddressIp {
  import opened Basics
  import opened Varint
  import opened VBuffers
  import opened Multiaddress
  import opened Multicodec
  import opened MultiaddressScan

  predicate IsIp(c: Component) {
    c.code == IP4_CODE || c.code == IP6_CODE
  }

  /** An IP address as the component that carries it. */
  predicate IpComponent(c: Component) {
    (c.code == IP4_CODE && |c.payload| == 4) || (c.code == IP6_CODE && |c.payload| == 16)
  }

  /** The first IP component of a list of parts. */
  function FirstIp(parts: seq<Component>): (r: Option<Component>)
    ensures r.Some? ==> exists i :: 0 <= i < |parts| && r.value == parts[i] &&
                                    (parts[i].code == IP4_CODE || parts[i].code == IP6_CODE) &&
                                    forall j :: 0 <= j < i ==> parts[j].code != IP4_CODE && parts[j].code != IP6_CODE
    ensures r.None? <==> forall c :: c in parts ==> c.code != IP4_CODE && c.code != IP6_CODE
  {
    if parts == [] then None
    else if IsIp(parts[0]) then Some(parts[0])
    else FirstIp(parts[1..])
  }

  /** What the skip-scan finds: it passes over payloads without looking at them. */
  function ScanIp(reg: Registry, bs: Address): Option<Component>
    decreases |bs|
  {
    if bs == [] then None
    else
      match Head(reg, bs)
      case None => None
      case Some((c, rest)) => if IsIp(c) then Some(c) else ScanIp(reg, rest)
  }

  /** `getIp`. */
  method GetIp(reg: Registry, ma: Address) returns (r: Option<Component>)
    requires Sound(reg)
    ensures r == ScanIp(reg, ma)
    ensures r.Some? ==> IpComponent(r.value)
  {
    hide TakeVarint, TakeSeq, Head;
    var cursor := new VBuffer(ma);
    while !cursor.IsEmpty()
      invariant cursor.Valid() && fresh(cursor)
      invariant ScanIp(reg, cursor.Rest()) == ScanIp(reg, ma)
      decreases |cursor.Rest()|
    {
      ghost var before := cursor.Rest();
      var n, header := cursor.ReadVarint();
      if n == -1 || header !in reg.protocols {
        NoHead(reg, before);
        return None;
      }
      ghost var body := cursor.Rest();
      var proto := reg.protocols[header];
      HeadIs(reg, before, header, body);
      if proto.kind.Fixed? {
        if header == IP4_CODE {
          var k, address := cursor.ReadArray(4);
          return if k == 4 then Some(Component(header, address)) else None;
        } else if header == IP6_CODE {
          var k, address := cursor.ReadArray(16);
          return if k == 16 then Some(Component(header, address)) else None;
        } else {
          if !cursor.IsEnough(proto.size) {
            return None;
          }
          cursor.offset := cursor.offset + proto.size;
          assert cursor.Rest() == body[proto.size..];
          assert Head(reg, before) == Some((Component(header, body[..proto.size]), cursor.Rest()));
        }
      } else if HasPrefix(proto.kind) {
        SkippedIsRead(body);
        var k, length := cursor.ReadVarint();
        if k == -1 {
          return None;
        }
        ghost var tail := cursor.Rest();
        if !cursor.IsEnough(length) {
          return None;
        }
        cursor.offset := cursor.offset + length;
        assert cursor.Rest() == tail[length..];
        assert Head(reg, before) == Some((Component(header, tail[..length]), cursor.Rest()));
      }
    }
    r := None;
  }

  lemma {:induction false} HeadIs(reg: Registry, bs: Address, code: nat, body: Address)
    requires TakeVarint(bs) == Some((code, body)) && code in reg.protocols
    ensures Head(reg, bs) == match TakePayload(reg.protocols[code], body)
      case None => None
      case Some((payload, rest)) => Some((Component(code, payload), rest))
  {
  }

  lemma {:induction false} NoHead(reg: Registry, bs: Address)
    requires TakeVarint(bs).None? || TakeVarint(bs).value.0 !in reg.protocols
    ensures Head(reg, bs).None?
  {
  }

  /** Skipping a length and its bytes ends where reading them would. */
  lemma {:induction false} SkippedIsRead(body: seq<byte>)
    ensures TakeVarint(body).None? ==> TakeSeq(body).None?
    ensures TakeVarint(body).Some? ==>
      var (size, tail) := TakeVarint(body).value;
      TakeSeq(body) == if size <= |tail| then Some((tail[..size], tail[size..])) else None
  {
  }

  /** The skip-scan agrees with the iterator: it finds the first IP part the iterator yields, and
      nothing where the iterator reads everything and sees none. */
  lemma {:induction false} ScanIpOfItems(reg: Registry, bs: Address)
    requires FirstIp(Items(reg, bs).parts).Some? || Items(reg, bs).complete
    ensures ScanIp(reg, bs) == FirstIp(Items(reg, bs).parts)
    decreases |bs|
  {
    hide Head;
    if bs != [] {
      var (c, rest) := Head(reg, bs).value;
      assert Items(reg, bs).parts[1..] == Items(reg, rest).parts;
      if !IsIp(c) {
        ScanIpOfItems(reg, rest);
      }
    }
  }

  /** The hypothesis is needed: past an empty length-prefixed part the iterator has stopped, and the
      scan still finds the IP behind it. */
  lemma {:induction false} ScanPassesAnEmptyPart(reg: Registry, code: nat, ip: Component)
    requires Sound(reg) && code < LIMIT63 && code in reg.protocols && HasPrefix(reg.protocols[code].kind)
    requires IpComponent(ip)
    ensures var bs := PartBytes(reg, Component(code, [])) + PartBytes(reg, ip);
      ScanIp(reg, bs) == Some(ip) && Items(reg, bs) == Listing([], false)
  {
    hide Leb128, Head, PartBytes, Items, ScanIp;
    var empty := Component(code, []);
    var tail := PartBytes(reg, ip);
    assert tail + [] == tail;
    HeadEncoded(reg, empty, tail);
    HeadEncoded(reg, ip, []);
    OneStep(reg, PartBytes(reg, empty) + tail, empty, tail);
    OneStep(reg, tail, ip, []);
  }

  /** Scan and iterator, one component further. */
  lemma {:induction false} OneStep(reg: Registry, bs: Address, c: Component, rest: Address)
    requires Head(reg, bs) == Some((c, rest))
    ensures ScanIp(reg, bs) == if IsIp(c) then Some(c) else ScanIp(reg, rest)
    ensures c.code in reg.protocols
    ensures HasPrefix(reg.protocols[c.code].kind) && c.payload == [] ==> Items(reg, bs) == Listing([], false)
  {
    HeadSplits(reg, bs, c, rest);
    hide Head;
  }

  /** The parts with the first IP component replaced. */
  function WithIp(parts: seq<Component>, ip: Component): seq<Component> {
    if parts == [] then []
    else if IsIp(parts[0]) then [ip] + parts[1..]
    else [parts[0]] + WithIp(parts[1..], ip)
  }

  /** Only the first IP part can differ, and it becomes `ip`. */
  lemma {:induction false} WithIpChanges(parts: seq<Component>, ip: Component)
    ensures |WithIp(parts, ip)| == |parts|
    ensures forall i :: 0 <= i < |parts| && WithIp(parts, ip)[i] != parts[i] ==>
      WithIp(parts, ip)[i] == ip && IsIp(parts[i]) && FirstIp(parts[..i]) == None
  {
    var r := WithIp(parts, ip);
    if parts != [] && !IsIp(parts[0]) {
      var tail := parts[1..];
      WithIpChanges(tail, ip);
      forall i | 0 <= i < |parts| && r[i] != parts[i]
        ensures r[i] == ip && IsIp(parts[i]) && FirstIp(parts[..i]) == None
      {
        assert r[i] == WithIp(tail, ip)[i - 1] && parts[i] == tail[i - 1];
        assert parts[..i] == [parts[0]] + tail[..i - 1];
      }
    } else if parts != [] {
      assert parts[..0] == [];
    }
  }

  lemma {:induction false} WithIpMembers(parts: seq<Component>, ip: Component)
    ensures forall d :: d in WithIp(parts, ip) ==> d == ip || d in parts
    ensures FirstIp(parts).Some? && IsIp(ip) ==> FirstIp(WithIp(parts, ip)) == Some(ip)
  {
    if parts != [] && !IsIp(parts[0]) {
      WithIpMembers(parts[1..], ip);
      assert WithIp(parts, ip)[1..] == WithIp(parts[1..], ip);
    }
  }

  lemma {:induction false} WithIpSnoc(parts: seq<Component>, c: Component, ip: Component)
    ensures WithIp(parts + [c], ip)
      == WithIp(parts, ip) + [if FirstIp(parts).None? && IsIp(c) then ip else c]
  {
    if parts != [] {
      assert (parts + [c])[1..] == parts[1..] + [c];
      if !IsIp(parts[0]) {
        WithIpSnoc(parts[1..], c, ip);
      }
    } else {
      assert [c][1..] == [];
    }
  }

  lemma {:induction false} FirstIpSnoc(parts: seq<Component>, c: Component)
    ensures FirstIp(parts + [c])
      == if FirstIp(parts).Some? then FirstIp(parts) else if IsIp(c) then Some(c) else None
  {
    if parts != [] {
      assert (parts + [c])[1..] == parts[1..] + [c];
      FirstIpSnoc(parts[1..], c);
    } else {
      assert [c][1..] == [];
    }
  }

  lemma {:induction false} IpAccepted(reg: Registry, c: Component)
    requires Sound(reg) && (IpComponent(c) || (IsIp(c) && Yieldable(reg, c)))
    ensures Accepted(reg, c) && Yieldable(reg, c)
  {
  }

  /** Appending a part to a valid address validates exactly when the part is accepted. */
  lemma {:induction false} AppendIff(reg: Registry, parts: seq<Component>, c: Component)
    requires Sound(reg) && Yieldable(reg, c)
    requires forall d :: d in parts ==> Accepted(reg, d)
    ensures Flatten(reg, parts) + PartBytes(reg, c) == Flatten(reg, parts + [c])
    ensures Valid(reg, Flatten(reg, parts) + PartBytes(reg, c)) <==> Accepted(reg, c)
  {
    hide Items, Head, PartBytes, Valid;
    FlattenOne(reg, c);
    FlattenAppend(reg, parts, [c]);
    ValidOfFlatten(reg, parts);
    ItemsOfFlatten(reg, [c], []);
    assert PartBytes(reg, c) + [] == PartBytes(reg, c);
    assert Items(reg, []).parts == [] && Items(reg, []).complete by { ValidOfFlatten(reg, []); }
    assert [c] + [] == [c];
    ValidIffItems(reg, PartBytes(reg, c));
    ConcatIff(reg, Flatten(reg, parts), PartBytes(reg, c));
  }

  /** One turn of the `replaceIp` loop: what is appended, and when that validates. */
  lemma {:induction false} ReplaceStep(reg: Registry, done: seq<Component>, c: Component, ip: Component)
    requires Sound(reg) && IpComponent(ip) && Yieldable(reg, c)
    requires forall d :: d in done ==> Accepted(reg, d)
    ensures var d := if FirstIp(done).None? && IsIp(c) then ip else c;
      var grown := Flatten(reg, WithIp(done, ip)) + PartBytes(reg, d);
      grown == Flatten(reg, WithIp(done + [c], ip)) && (Valid(reg, grown) <==> Accepted(reg, c))
    ensures FirstIp(done + [c]).Some? <==> FirstIp(done).Some? || IsIp(c)
  {
    hide Items, Head, Valid, PartBytes, Accepted, Yieldable, Flatten;
    WithIpSnoc(done, c, ip);
    FirstIpSnoc(done, c);
    WithIpMembers(done, ip);
    IpAccepted(reg, ip);
    if IsIp(c) {
      IpAccepted(reg, c);
    }
    AppendIff(reg, WithIp(done, ip), if FirstIp(done).None? && IsIp(c) then ip else c);
  }

  /** `replaceIp` succeeds exactly on the valid addresses that hold an IP component, and changes the
      first one of those only. */
  method ReplaceIp(reg: Registry, ma: Address, ip: Component) returns (r: Option<Address>)
    requires Sound(reg) && IpComponent(ip)
    ensures r == if Valid(reg, ma) && FirstIp(Items(reg, ma).parts).Some?
                 then Some(Flatten(reg, WithIp(Items(reg, ma).parts, ip)))
                 else None
  {
    hide Items, Head, Valid, PartBytes, Accepted, Yieldable, Flatten, WithIp, FirstIp, Sound, IpComponent;
    ghost var parts := Items(reg, ma).parts;
    ValidIffItems(reg, ma);
    ItemsRebuild(reg, ma);
    IpAccepted(reg, ip);
    var newIp := BuildPart(reg, ip.code, ip.payload);
    var codes, bytes, complete := ItemsOf(reg, ma);
    var found := false;
    var res: Address := [];
    NothingReplaced(reg, ip);
    for i := 0 to |bytes|
      invariant found <==> FirstIp(parts[..i]).Some?
      invariant forall d :: d in parts[..i] ==> Accepted(reg, d)
      invariant res == Flatten(reg, WithIp(parts[..i], ip))
    {
      assert parts[..i + 1] == parts[..i] + [parts[i]];
      ReplaceStep(reg, parts[..i], parts[i], ip);
      var ok;
      if !found && (codes[i] == IP4_CODE || codes[i] == IP6_CODE) {
        res, ok := Append(reg, res, newIp);
        found := true;
      } else {
        res, ok := Append(reg, res, bytes[i]);
      }
      if !ok {
        assert parts[i] in parts;
        return None;
      }
    }
    assert parts[..|bytes|] == parts;
    if !complete || !found {
      return None;
    }
    r := Some(res);
  }

  lemma {:induction false} NothingReplaced(reg: Registry, ip: Component)
    ensures Flatten(reg, WithIp([], ip)) == [] && FirstIp([]) == None
  {
  }

  /** The replaced address is valid, reads back as the same parts but for the first IP, and a scan
      of it finds the new IP. */
  lemma {:induction false} ReplacedIp(reg: Registry, ma: Address, ip: Component)
    requires Sound(reg) && IpComponent(ip)
    requires Valid(reg, ma) && FirstIp(Items(reg, ma).parts).Some?
    ensures var parts := WithIp(Items(reg, ma).parts, ip);
      var r := Flatten(reg, parts);
      Valid(reg, r) && Items(reg, r) == Listing(parts, true) && ScanIp(reg, r) == Some(ip)
  {
    hide Head, Valid, PartBytes, Accepted, Yieldable, Flatten;
    var parts := WithIp(Items(reg, ma).parts, ip);
    ValidIffItems(reg, ma);
    IpAccepted(reg, ip);
    WithIpMembers(Items(reg, ma).parts, ip);
    ValidOfFlatten(reg, parts);
    ScanIpOfItems(reg, Flatten(reg, parts));
  }
}
