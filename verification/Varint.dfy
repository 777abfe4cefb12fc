/** The unsigned varints of `libp2p/varint.nim`: base-128 groups, least significant first, at most
    63 bits of value and only the shortest form accepted. */
module Varint {
  import opened Basics

  const LIMIT63 := 0x8000_0000_0000_0000
  const LIMIT64 := 0x1_0000_0000_0000_0000

  /** Groups a 64-bit LEB128 value may span. */
  const MAX_GROUPS := 10

  datatype VarintError = Overflow | Incomplete | Overlong | Overrun

  /** `toBytes(v, Leb128)`. */
  function Leb128(v: nat): (bs: seq<byte>)
    ensures |bs| >= 1
  {
    if v < 128 then [v] else [v % 128 + 128] + Leb128(v / 128)
  }

  function Pow128(k: nat): (p: nat)
    ensures p >= 1
  {
    if k == 0 then 1 else 128 * Pow128(k - 1)
  }

  /** What groups stand for: the sum of the low seven bits of the i-th byte times 128 to the i. */
  function Value(bs: seq<byte>): nat {
    if bs == [] then 0
    else Value(bs[..|bs| - 1]) + bs[|bs| - 1] % 128 * Pow128(|bs| - 1)
  }

  /** The shortest form on the wire: the high bit is set on every byte but the last, and the last byte is
      not zero unless it is the only one. */
  predicate WireForm(bs: seq<byte>) {
    && bs != []
    && (forall i :: 0 <= i < |bs| - 1 ==> bs[i] >= 128)
    && bs[|bs| - 1] < 128
    && (|bs| == 1 || bs[|bs| - 1] != 0)
  }

  /** The same sum, from the front. */
  lemma {:induction false} ValueFromFront(bs: seq<byte>)
    requires bs != []
    ensures Value(bs) == bs[0] % 128 + 128 * Value(bs[1..])
  {
    var n := |bs| - 1;
    if n > 0 {
      var last := bs[n] % 128;
      ValueFromFront(bs[..n]);
      assert bs[..n][1..] == bs[1..][..n - 1];
      assert last * Pow128(n) == 128 * (last * Pow128(n - 1));
    } else {
      assert bs[..0] == [] && bs[1..] == [];
    }
  }

  /** An encoding is the shortest form of its value. */
  lemma {:induction false} EncodedForm(v: nat)
    ensures WireForm(Leb128(v)) && Value(Leb128(v)) == v
  {
    hide Value, WireForm;
    var bs := Leb128(v);
    if v >= 128 {
      var rest := Leb128(v / 128);
      assert bs[0] == v % 128 + 128 && bs[1..] == rest;
      EncodedForm(v / 128);
      ValueFromFront(bs);
      assert bs == [bs[0]] + rest;
      FormBehind(bs[0], rest);
    } else {
      ValueOfByte(v);
    }
  }

  lemma {:induction false} ValueOfByte(v: nat)
    requires v < 128
    ensures WireForm([v]) && Value([v]) == v
  {
    assert [v][..0] == [] && Value([]) == 0 && Pow128(0) == 1;
  }

  lemma {:induction false} FormBehind(b: byte, rest: seq<byte>)
    requires b >= 128 && WireForm(rest) && Value(rest) > 0
    ensures WireForm([b] + rest)
  {
    var bs := [b] + rest;
    assert bs[|bs| - 1] == rest[|rest| - 1];
    if |rest| == 1 {
      ValueOfByte(rest[0]);
      assert rest == [rest[0]];
    }
    forall i | 0 <= i < |bs| - 1
      ensures bs[i] >= 128
    {
      assert i > 0 ==> bs[i] == rest[i - 1];
    }
  }

  /** And the only one. */
  lemma {:induction false} FormIsEncoded(bs: seq<byte>)
    requires WireForm(bs)
    ensures Leb128(Value(bs)) == bs
  {
    ValueFromFront(bs);
    if |bs| > 1 {
      FormIsEncoded(bs[1..]);
      assert Value(bs[1..]) > 0 by {
        EncodedForm(Value(bs[1..]));
        assert bs[1..][|bs| - 2] == bs[|bs| - 1];
      }
      assert bs == [bs[0]] + bs[1..];
    } else {
      assert bs[1..] == [];
    }
  }

  datatype Parsed = TooShort | TooLong | Parsed(value: nat, length: nat)

  /** `fromBytes(bs, Leb128)`, with `room` more groups allowed. */
  function ParseGroups(bs: seq<byte>, room: nat): (p: Parsed)
    ensures p.Parsed? ==> 1 <= p.length <= |bs| && p.length <= room
  {
    if bs == [] then TooShort
    else if room == 0 then TooLong
    else if bs[0] < 128 then Parsed(bs[0], 1)
    else
      match ParseGroups(bs[1..], room - 1)
      case Parsed(v, n) => Parsed(bs[0] - 128 + 128 * v, n + 1)
      case other => other
  }

  /** `LP.getUVarint` into a `uint64`: the value and the bytes it took. */
  function GetUVarint(bs: seq<byte>): Result<(nat, nat), VarintError> {
    match ParseGroups(bs, MAX_GROUPS)
    case TooShort => Err(Incomplete)
    case TooLong => Err(Overflow)
    case Parsed(v, n) =>
      if v >= LIMIT64 then Err(Overflow)
      else if v >= LIMIT63 then Err(Overflow)
      else if |Leb128(v)| != n then Err(Overlong)
      else Ok((v, n))
  }

  /** `LP.putUVarint`: the encoding lands at the front of `pbytes` and nothing else changes;
      a buffer that is too small is left alone and `outlen` says what was needed. */
  method PutUVarint(pbytes: array<byte>, v: nat) returns (r: Result<(), VarintError>, outlen: nat)
    requires v < LIMIT64
    modifies pbytes
    ensures v >= LIMIT63 ==> r == Err(Overflow) && outlen == 0 && pbytes[..] == old(pbytes[..])
    ensures v < LIMIT63 ==> outlen == |Leb128(v)|
    ensures v < LIMIT63 && pbytes.Length < outlen ==> r == Err(Overrun) && pbytes[..] == old(pbytes[..])
    ensures v < LIMIT63 && outlen <= pbytes.Length ==>
      r == Ok(()) && pbytes[..] == Leb128(v) + old(pbytes[outlen..])
    ensures v < LIMIT63 && outlen <= pbytes.Length ==>
      WireForm(pbytes[..outlen]) && Value(pbytes[..outlen]) == v && pbytes[outlen..] == old(pbytes[outlen..])
  {
    hide Value, WireForm;
    outlen := 0;
    if v >= LIMIT63 {
      return Err(Overflow), 0;
    }
    var bytes := Leb128(v);
    outlen := |bytes|;
    if pbytes.Length < outlen {
      return Err(Overrun), outlen;
    }
    for i := 0 to outlen
      invariant pbytes[..i] == bytes[..i]
      invariant pbytes[i..] == old(pbytes[i..])
    {
      pbytes[i] := bytes[i];
    }
    EncodedForm(v);
    assert pbytes[..outlen] == bytes;
    r := Ok(());
  }

  lemma {:induction false} LengthBound(v: nat, k: nat)
    requires 1 <= k && v < Pow128(k)
    ensures |Leb128(v)| <= k
  {
    if v >= 128 {
      assert Pow128(1) == 128;
      assert v / 128 < Pow128(k - 1);
      LengthBound(v / 128, k - 1);
    }
  }

  /** Nine groups hold 63 bits. */
  lemma {:induction false} LpLengthBound(v: nat)
    requires v < LIMIT63
    ensures |Leb128(v)| <= 9
  {
    assert Pow128(9) == LIMIT63 by {
      assert Pow128(1) == 128;
      assert Pow128(3) == 128 * 128 * 128;
      assert Pow128(6) == 128 * 128 * 128 * Pow128(3);
      assert Pow128(9) == 128 * 128 * 128 * Pow128(6);
    }
    LengthBound(v, 9);
  }

  lemma {:induction false} ParseEncoded(v: nat, rest: seq<byte>, room: nat)
    requires |Leb128(v)| <= room
    ensures ParseGroups(Leb128(v) + rest, room) == Parsed(v, |Leb128(v)|)
  {
    if v >= 128 {
      var bs := Leb128(v) + rest;
      assert bs[1..] == Leb128(v / 128) + rest;
      ParseEncoded(v / 128, rest, room - 1);
    }
  }

  /** No parse takes fewer groups than the encoder, and one that takes as many read its bytes. */
  lemma {:induction false} ParsedIsEncoded(bs: seq<byte>, room: nat)
    requires ParseGroups(bs, room).Parsed?
    ensures var p := ParseGroups(bs, room);
      |Leb128(p.value)| <= p.length
      && (|Leb128(p.value)| == p.length ==> bs[..p.length] == Leb128(p.value))
  {
    var p := ParseGroups(bs, room);
    if bs[0] >= 128 {
      var q := ParseGroups(bs[1..], room - 1);
      ParsedIsEncoded(bs[1..], room - 1);
      assert p.value == bs[0] - 128 + 128 * q.value;
      if q.value > 0 {
        assert p.value / 128 == q.value && p.value % 128 == bs[0] - 128;
        assert bs[..p.length] == [bs[0]] + bs[1..][..q.length];
      }
    } else {
      assert bs[..1] == [bs[0]];
    }
  }

  /** Decoding an encoding gives the value and its length, whatever follows. */
  lemma {:induction false} DecodeEncoded(v: nat, rest: seq<byte>)
    requires v < LIMIT63
    ensures GetUVarint(Leb128(v) + rest) == Ok((v, |Leb128(v)|))
    ensures |Leb128(v)| <= 9
  {
    LpLengthBound(v);
    ParseEncoded(v, rest, MAX_GROUPS);
  }

  /** An input is accepted exactly when it starts with an encoding, and then it yields that one. */
  lemma {:induction false} AcceptedIffEncoded(bs: seq<byte>, v: nat, n: nat)
    ensures GetUVarint(bs) == Ok((v, n)) <==> v < LIMIT63 && Leb128(v) <= bs && n == |Leb128(v)|
  {
    if GetUVarint(bs) == Ok((v, n)) {
      ParsedIsEncoded(bs, MAX_GROUPS);
    }
    if v < LIMIT63 && Leb128(v) <= bs {
      assert bs == Leb128(v) + bs[|Leb128(v)|..];
      DecodeEncoded(v, bs[|Leb128(v)|..]);
    }
  }

  /** On the wire: exactly the shortest forms of values below 2^63 are read, with their value and length. */
  lemma {:induction false} AcceptedIff(bs: seq<byte>, v: nat, n: nat)
    ensures GetUVarint(bs) == Ok((v, n)) <==>
            1 <= n <= |bs| && WireForm(bs[..n]) && Value(bs[..n]) == v < LIMIT63
  {
    hide GetUVarint, Leb128, Value, WireForm;
    AcceptedIffEncoded(bs, v, n);
    EncodedForm(v);
    if 1 <= n <= |bs| && WireForm(bs[..n]) && Value(bs[..n]) == v {
      FormIsEncoded(bs[..n]);
    }
    if Leb128(v) <= bs && n == |Leb128(v)| {
      assert bs[..n] == Leb128(v);
    }
  }

  /** The first byte without the high bit, or the end. */
  function End(bs: seq<byte>): (t: nat)
    ensures t <= |bs| && (forall i :: 0 <= i < t ==> bs[i] >= 128) && (t < |bs| ==> bs[t] < 128)
  {
    if bs == [] || bs[0] < 128 then 0 else 1 + End(bs[1..])
  }

  lemma {:induction false} ValueBehind(bs: seq<byte>, t: nat)
    requires 0 < t < |bs| && bs[0] >= 128
    ensures Value(bs[..t + 1]) == bs[0] - 128 + 128 * Value(bs[1..][..t])
  {
    hide Value;
    ValueFromFront(bs[..t + 1]);
    assert bs[..t + 1][1..] == bs[1..][..t];
  }

  lemma {:induction false} ValueOfOne(bs: seq<byte>)
    requires bs != [] && bs[0] < 128
    ensures Value(bs[..1]) == bs[0]
  {
    assert bs[..1][..0] == [];
  }

  lemma {:induction false} ParsedAtEnd(bs: seq<byte>, room: nat)
    ensures ParseGroups(bs, room) ==
            if End(bs) < |bs| && End(bs) < room then Parsed(Value(bs[..End(bs) + 1]), End(bs) + 1)
            else if |bs| <= room then TooShort
            else TooLong
  {
    hide Value;
    if bs != [] && room > 0 {
      if bs[0] >= 128 {
        ParsedAtEnd(bs[1..], room - 1);
        if End(bs) < |bs| {
          ValueBehind(bs, End(bs));
        }
      } else {
        ValueOfOne(bs);
      }
    }
  }

  /** The form up to the last group is the shortest exactly if it has as many groups as the encoding. */
  lemma {:induction false} ShortestIff(bs: seq<byte>)
    requires End(bs) < |bs|
    ensures var t := End(bs);
            && (|Leb128(Value(bs[..t + 1]))| == t + 1 <==> WireForm(bs[..t + 1]))
            && (WireForm(bs[..t + 1]) <==> t == 0 || bs[t] != 0)
  {
    hide Leb128, Value;
    var t := End(bs);
    var w := bs[..t + 1];
    if WireForm(w) {
      FormIsEncoded(w);
    }
    ParsedAtEnd(bs, t + 1);
    ParsedIsEncoded(bs, t + 1);
    EncodedForm(Value(w));
  }

  /** Why an input is refused: it ends before its last group within ten bytes; or the value, or the number of
      groups, is too large; or the form is not the shortest. */
  lemma {:induction false} RefusedIff(bs: seq<byte>)
    ensures var t := End(bs);
            && (GetUVarint(bs) == Err(Incomplete) <==> t == |bs| <= MAX_GROUPS)
            && (GetUVarint(bs) == Err(Overlong) <==>
                  t < |bs| && 0 < t < MAX_GROUPS && Value(bs[..t + 1]) < LIMIT63 && bs[t] == 0)
            && (GetUVarint(bs) == Err(Overflow) <==>
                  (t >= MAX_GROUPS && |bs| > MAX_GROUPS) ||
                  (t < |bs| && t < MAX_GROUPS && Value(bs[..t + 1]) >= LIMIT63))
  {
    hide ParseGroups, Leb128, Value, WireForm, End;
    ParsedAtEnd(bs, MAX_GROUPS);
    if End(bs) < |bs| {
      ShortestIff(bs);
    }
  }

  /** No encoding is a prefix of another one. */
  lemma {:induction false} PrefixFree(v: nat, w: nat, x: seq<byte>, y: seq<byte>)
    requires Leb128(v) + x == Leb128(w) + y
    ensures v == w && x == y
  {
    var room := |Leb128(v)| + |Leb128(w)|;
    ParseEncoded(v, x, room);
    ParseEncoded(w, y, room);
    assert x == (Leb128(v) + x)[|Leb128(v)|..];
    assert y == (Leb128(w) + y)[|Leb128(w)|..];
  }
}
