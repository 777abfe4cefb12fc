/** Full addresses of `libp2p/peerinfo.nim`: a dial address followed by `/p2p/<peer-id>`. */
module PeerInfo {
  import opened Basics
  import opened Varint
  import opened Multiaddress
  import opened Multicodec

  /** `PeerId.init` on bytes, which is also what the p2p transcoder checks. */
  ghost predicate IsPeerId(reg: Registry, data: seq<byte>)
    requires Sound(reg)
  {
    |data| < LIMIT63 && reg.protocols[P2P_CODE].coder.value.valid(data)
  }

  /** `MultiAddress.init(p2p, data)`: any non-empty payload. */
  function PeerPart(reg: Registry, data: seq<byte>): Option<Address> {
    if data == [] then None else Some(PartBytes(reg, Component(P2P_CODE, data)))
  }

  function ToFullAddress(reg: Registry, pid: seq<byte>, ma: Address): Option<Address> {
    match PeerPart(reg, pid)
    case None => None
    case Some(part) => Concat(reg, ma, part)
  }

  /** The peer id of a part that is `/p2p/<peer-id>`, through `protoCode` and `protoArgument`. */
  ghost function PeerIdOfPart(reg: Registry, part: Address): Option<seq<byte>>
    requires Sound(reg)
  {
    match Head(reg, part)
    case None => None
    case Some((c, _)) => if c.code == P2P_CODE && IsPeerId(reg, c.payload) then Some(c.payload) else None
  }

  /** `ma[^1]`. */
  function LastPart(reg: Registry, ma: Address): Option<Address> {
    var listing := Items(reg, ma);
    if !listing.complete || listing.parts == [] then None
    else GetPart(reg, ma, |listing.parts| - 1)
  }

  ghost function ParseFullAddress(reg: Registry, ma: Address): Option<(seq<byte>, Address)>
    requires Sound(reg)
  {
    match LastPart(reg, ma)
    case None => None
    case Some(part) =>
      match PeerIdOfPart(reg, part)
      case None => None
      case Some(pid) =>
        match SliceOf(reg, ma, 0, |Items(reg, ma).parts| - 2)
        case None => None
        case Some(rest) => Some((pid, rest))
  }

  ghost function StripPeerId(reg: Registry, ma: Address): Address
    requires Sound(reg)
  {
    var listing := Items(reg, ma);
    if !listing.complete || |listing.parts| < 2 then ma
    else
      match LastPart(reg, ma)
      case None => ma
      case Some(part) =>
        if PeerIdOfPart(reg, part).None? then ma
        else
          match SliceOf(reg, ma, 0, |listing.parts| - 2)
          case None => ma
          case Some(rest) => rest
  }

  /** What parsing a valid address comes to: it succeeds exactly when the last part is a peer id, and
      gives that id and the bytes before it. */
  lemma {:induction false} ParsedParts(reg: Registry, ma: Address)
    requires Sound(reg) && Valid(reg, ma)
    ensures var parts := Items(reg, ma).parts;
      ParseFullAddress(reg, ma)
        == if parts == [] || parts[|parts| - 1].code != P2P_CODE then None
           else Some((parts[|parts| - 1].payload, Flatten(reg, parts[..|parts| - 1])))
  {
    hide Items, Head, Valid, PartBytes, Flatten, GetPart, SliceOf;
    var parts := Items(reg, ma).parts;
    ValidIffItems(reg, ma);
    if parts != [] {
      var n := |parts|;
      var last := parts[n - 1];
      GetPartOfItems(reg, ma, n - 1);
      assert Accepted(reg, last);
      HeadEncoded(reg, last, []);
      assert PartBytes(reg, last) + [] == PartBytes(reg, last);
      SliceOfValid(reg, ma, 0, n - 2);
      assert parts[0..n - 1] == parts[..n - 1];
      if n == 1 { assert parts[..0] == []; NoParts(reg); }
    }
  }

  lemma {:induction false} NoParts(reg: Registry)
    ensures Flatten(reg, []) == []
  {
  }

  /** Parsing undoes building: for every valid address and peer id. */
  lemma {:induction false} ParseUndoesBuild(reg: Registry, pid: seq<byte>, ma: Address)
    requires Sound(reg) && Valid(reg, ma) && IsPeerId(reg, pid)
    ensures ToFullAddress(reg, pid, ma).Some?
    ensures ParseFullAddress(reg, ToFullAddress(reg, pid, ma).value) == Some((pid, ma))
  {
    hide Items, Head, Valid, PartBytes, Flatten, ParseFullAddress;
    var c := Component(P2P_CODE, pid);
    var parts := Items(reg, ma).parts;
    var whole := parts + [c];
    ValidIffItems(reg, ma);
    ItemsRebuild(reg, ma);
    FlattenAppend(reg, parts, [c]);
    FlattenOne(reg, c);
    ValidOfFlatten(reg, whole);
    ParsedParts(reg, ma + PartBytes(reg, c));
    assert whole[..|whole| - 1] == parts;
  }

  /** Building undoes parsing: every valid address that parses is the full address of its parse. */
  lemma {:induction false} BuildUndoesParse(reg: Registry, full: Address)
    requires Sound(reg) && Valid(reg, full) && ParseFullAddress(reg, full).Some?
    ensures var (pid, ma) := ParseFullAddress(reg, full).value;
      Valid(reg, ma) && IsPeerId(reg, pid) && ToFullAddress(reg, pid, ma) == Some(full)
  {
    hide Items, Head, Valid, PartBytes, Flatten, ParseFullAddress;
    var parts := Items(reg, full).parts;
    var n := |parts|;
    ParsedParts(reg, full);
    ValidIffItems(reg, full);
    ItemsRebuild(reg, full);
    assert Accepted(reg, parts[n - 1]);
    assert parts[0..n - 1] == parts[..n - 1];
    SubsetAccepted(reg, full, 0, n - 1);
    assert parts == parts[..n - 1] + [parts[n - 1]];
    FlattenAppend(reg, parts[..n - 1], [parts[n - 1]]);
    FlattenOne(reg, parts[n - 1]);
  }

  /** Stripping removes exactly what parsing splits off, except that a bare `/p2p/<peer-id>` stays. */
  lemma {:induction false} StripIsParse(reg: Registry, ma: Address)
    requires Sound(reg) && Valid(reg, ma)
    ensures StripPeerId(reg, ma)
      == match ParseFullAddress(reg, ma)
         case Some((_, rest)) => if |Items(reg, ma).parts| == 1 then ma else rest
         case None => ma
  {
    hide Items, Head, Valid, PartBytes, Flatten, GetPart, SliceOf;
    var n := |Items(reg, ma).parts|;
    ValidIffItems(reg, ma);
    SliceOfValid(reg, ma, 0, n - 2);
  }
}
