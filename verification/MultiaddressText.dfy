/** The text form of `libp2p/multiaddress.nim`: `toString` prints a buffer, `init(string)` parses it. */
module MultiaddressText {
  import opened Basics
  import opened Varint
  import opened VBuffers
  import opened Multiaddress
  import opened MultiaddressScan
  import opened Text

  /** Names and codes match one to one, and no name disturbs the slashes around it. */
  ghost predicate Named(reg: Registry) {
    forall code :: code in reg.protocols ==>
      var name := reg.protocols[code].name;
      name != "" && SlashFree(name) && name in reg.names && reg.names[name] == code
  }

  /** The text of one component. */
  function ShowPart(p: Protocol, payload: seq<byte>): Option<string> {
    if p.kind.Marker? then Some([SLASH] + p.name)
    else if p.coder.None? then None
    else
      match p.coder.value.show(payload)
      case None => None
      case Some(text) =>
        if text == "" then Some([SLASH] + p.name)
        else if p.kind.Path? && text[0] == SLASH then Some([SLASH] + p.name + text)
        else Some([SLASH] + p.name + [SLASH] + text)
  }

  function Show(reg: Registry, bs: Address): Option<string>
    decreases |bs|
  {
    if bs == [] then Some("")
    else
      match Head(reg, bs)
      case None => None
      case Some((c, rest)) =>
        match (ShowPart(reg.protocols[c.code], c.payload), Show(reg, rest))
        case (Some(x), Some(y)) => Some(x + y)
        case _ => None
  }

  /** `toString`. */
  method ToString(reg: Registry, ma: Address) returns (r: Option<string>)
    ensures r == Show(reg, ma)
  {
    hide TakeVarint, TakePayload, ShowPart;
    var cursor := new VBuffer(ma);
    var res := "";
    assert forall y: string :: "" + y == y;
    while !cursor.IsEmpty()
      invariant cursor.Valid() && fresh(cursor)
      invariant Show(reg, ma)
        == match Show(reg, cursor.Rest()) case None => None case Some(y) => Some(res + y)
      decreases |cursor.Rest()|
    {
      ghost var before := cursor.Rest();
      var n, header := cursor.ReadVarint();
      if n == -1 || header !in reg.protocols {
        return None;
      }
      var payload := ReadPayload(cursor, reg.protocols[header]);
      if payload.None? {
        return None;
      }
      assert Head(reg, before) == Some((Component(header, payload.value), cursor.Rest()));
      var text := ShowPart(reg.protocols[header], payload.value);
      if text.None? {
        return None;
      }
      assert forall y :: res + (text.value + y) == res + text.value + y;
      res := res + text.value;
    }
    assert res + "" == res;
    r := Some(res);
  }

  /** `getProtocol`: the code a name stands for, if an address can hold it. */
  function CodeOf(reg: Registry, name: string): (r: Option<nat>)
    ensures r.Some? ==> r.value in reg.protocols
  {
    if name in reg.names && reg.names[name] in reg.protocols then Some(reg.names[name]) else None
  }

  /** `init(string)` from segment `offset` on. */
  function ParseFrom(reg: Registry, trimmed: string, parts: seq<string>, offset: nat): Option<Address>
    decreases |parts| - offset
  {
    if offset >= |parts| then Some([])
    else
      var part := parts[offset];
      match CodeOf(reg, part)
      case None => None
      case Some(code) =>
        var p := reg.protocols[code];
        if p.kind.Marker? then Prepend(Leb128(code), ParseFrom(reg, trimmed, parts, offset + 1))
        else if p.coder.None? || offset + 1 >= |parts| then None
        else if p.kind.Path? then
          match p.coder.value.parse(PathText(trimmed, parts, offset))
          case None => None
          case Some(payload) => Some(PartBytes(reg, Component(code, payload)))
        else
          match p.coder.value.parse(parts[offset + 1])
          case None => None
          case Some(payload) =>
            Prepend(PartBytes(reg, Component(code, payload)), ParseFrom(reg, trimmed, parts, offset + 2))
  }

  function Prepend(bs: seq<byte>, rest: Option<Address>): Option<Address> {
    match rest
    case None => None
    case Some(more) => Some(bs + more)
  }

  /** A name between two slashes. */
  function Delimited(name: string): (pat: string)
    ensures |pat| == |name| + 2 && pat[0] == SLASH && pat[|name| + 1] == SLASH
    ensures pat[1..|name| + 1] == name
  {
    [SLASH] + name + [SLASH]
  }

  /** A text that ends in `/name` and `tail`. */
  function Ending(before: string, name: string, tail: string): (s: string)
    ensures |s| == |before| + 1 + |name| + |tail|
    ensures s[|before| + 1 + |name|..] == tail
    ensures tail != "" && tail[0] == SLASH ==> Occurs(s, Delimited(name), |before|)
  {
    var s := before + ([SLASH] + name + tail);
    assert s[|before| + 1 + |name|..] == tail;
    assert tail != "" && tail[0] == SLASH ==> s[|before|..|before| + |name| + 2] == Delimited(name);
    s
  }

  /** The path is everything behind the first place its protocol name stands between slashes. */
  function PathText(trimmed: string, parts: seq<string>, offset: nat): string
    requires offset + 1 < |parts|
  {
    match Find(trimmed, Delimited(parts[offset]))
    case Some(k) => trimmed[k + |parts[offset]| + 1..]
    case None => Joined(parts[offset + 1..])
  }

  function Parse(reg: Registry, value: string): Option<Address> {
    if value == "" || value == [SLASH] then None
    else if value[0] != SLASH then None
    else ParseFrom(reg, Trimmed(value), Split(Trimmed(value)), 1)
  }

  /** `init(string)`. */
  method InitText(reg: Registry, value: string) returns (r: Option<Address>)
    ensures r == Parse(reg, value)
  {
    hide Leb128, PartBytes, Find, Split;
    if value == "" || value == [SLASH] || value[0] != SLASH {
      return None;
    }
    var trimmed := TrimRight(value);
    var parts := Split(trimmed);
    var offset := 1;
    var res: Address := [];
    PrependNothing(ParseFrom(reg, trimmed, parts, 1));
    while offset < |parts|
      invariant 1 <= offset
      invariant Parse(reg, value) == Prepend(res, ParseFrom(reg, trimmed, parts, offset))
      decreases |parts| - offset
    {
      var code := CodeOf(reg, parts[offset]);
      if code.None? {
        return None;
      }
      var proto := reg.protocols[code.value];
      if !proto.kind.Marker? && (proto.coder.None? || offset + 1 >= |parts|) {
        return None;
      }
      ghost var before := res;
      if proto.kind.Marker? {
        res := res + Leb128(code.value);
        offset := offset + 1;
        Prepended(before, Leb128(code.value), ParseFrom(reg, trimmed, parts, offset));
      } else if proto.kind.Path? {
        var payload := proto.coder.value.parse(PathText(trimmed, parts, offset));
        if payload.None? {
          return None;
        }
        res := res + PartBytes(reg, Component(code.value, payload.value));
        return Some(res);
      } else {
        var payload := proto.coder.value.parse(parts[offset + 1]);
        if payload.None? {
          return None;
        }
        var part := PartBytes(reg, Component(code.value, payload.value));
        res := res + part;
        offset := offset + 2;
        Prepended(before, part, ParseFrom(reg, trimmed, parts, offset));
      }
    }
    assert res + [] == res;
    r := Some(res);
  }

  lemma {:induction false} PrependNothing(rest: Option<Address>)
    ensures Prepend([], rest) == rest
  {
    assert rest.Some? ==> [] + rest.value == rest.value;
  }

  lemma {:induction false} Prepended(x: seq<byte>, y: seq<byte>, rest: Option<Address>)
    ensures Prepend(x, Prepend(y, rest)) == Prepend(x + y, rest)
  {
    if rest.Some? {
      assert x + (y + rest.value) == x + y + rest.value;
    }
  }

  /** Components the text form keeps: not a path, and a transcoder that parses what it shows. */
  predicate Inverts(reg: Registry, c: Component) {
    && c.code in reg.protocols
    && var p := reg.protocols[c.code];
       (p.kind.Marker? && c.payload == [])
       || (!p.kind.Path? && !p.kind.Marker? && p.coder.Some?
           && var text := p.coder.value.show(c.payload);
              text.Some? && text.value != "" && SlashFree(text.value)
              && p.coder.value.parse(text.value) == Some(c.payload))
  }

  /** The segments of one component. */
  function Segments(reg: Registry, c: Component): (segs: seq<string>)
    requires Inverts(reg, c)
  {
    var p := reg.protocols[c.code];
    if p.kind.Marker? then [p.name] else [p.name, p.coder.value.show(c.payload).value]
  }

  function AllSegments(reg: Registry, parts: seq<Component>): seq<string>
    requires forall c :: c in parts ==> Inverts(reg, c)
  {
    if parts == [] then [] else Segments(reg, parts[0]) + AllSegments(reg, parts[1..])
  }

  lemma {:induction false} SegmentsClean(reg: Registry, parts: seq<Component>)
    requires Named(reg) && forall c :: c in parts ==> Inverts(reg, c)
    ensures var segs := AllSegments(reg, parts);
      (forall i :: 0 <= i < |segs| ==> segs[i] != "" && SlashFree(segs[i]))
      && (parts != [] ==> segs != [])
  {
    if parts != [] {
      SegmentsClean(reg, parts[1..]);
      assert Inverts(reg, parts[0]);
    }
  }

  lemma {:induction false} ShowPartSegments(reg: Registry, c: Component)
    requires Inverts(reg, c)
    ensures ShowPart(reg.protocols[c.code], c.payload) == Some(Joined(Segments(reg, c)))
  {
    var segs := Segments(reg, c);
    if |segs| == 1 {
      assert Joined(segs[1..]) == "";
      assert Joined(segs) == [SLASH] + segs[0];
    } else {
      assert segs[1..][1..] == [];
      assert Joined(segs[1..]) == [SLASH] + segs[1] + Joined([]);
      assert Joined(segs) == [SLASH] + segs[0] + ([SLASH] + segs[1]) == [SLASH] + segs[0] + [SLASH] + segs[1];
    }
  }

  /** Printing lists the segments of the parts, then prints what follows them. */
  lemma {:induction false} ShowParts(reg: Registry, parts: seq<Component>, rest: Address)
    requires forall c :: c in parts ==> Inverts(reg, c) && Readable(reg, c)
    ensures Show(reg, Flatten(reg, parts) + rest)
      == match Show(reg, rest) case None => None case Some(y) => Some(Joined(AllSegments(reg, parts)) + y)
  {
    hide Head, PartBytes, ShowPart, Segments;
    if parts == [] {
      assert Flatten(reg, parts) + rest == rest;
      assert forall y: string :: "" + y == y;
    } else {
      var c, tail := parts[0], parts[1..];
      var body := Flatten(reg, tail) + rest;
      Assoc(PartBytes(reg, c), Flatten(reg, tail), rest);
      assert Inverts(reg, c) && Readable(reg, c);
      HeadEncoded(reg, c, body);
      PartBytesNotEmpty(reg, c);
      ShowPartSegments(reg, c);
      ShowParts(reg, tail, rest);
      JoinedAppend(Segments(reg, c), AllSegments(reg, tail));
      var y := Show(reg, rest);
      if y.Some? {
        Assoc(Joined(Segments(reg, c)), Joined(AllSegments(reg, tail)), y.value);
      }
    }
  }

  lemma {:induction false} PartBytesNotEmpty(reg: Registry, c: Component)
    ensures PartBytes(reg, c) != []
  {
  }

  /** Parsing the segments of the parts rebuilds their bytes, then parses on. */
  lemma {:induction false} ParseSegments(
      reg: Registry, trimmed: string, parts: seq<string>, offset: nat, cs: seq<Component>, more: seq<string>)
    requires Named(reg) && forall c :: c in cs ==> Inverts(reg, c)
    requires offset <= |parts| && parts[offset..] == AllSegments(reg, cs) + more
    ensures offset + |AllSegments(reg, cs)| <= |parts|
    ensures ParseFrom(reg, trimmed, parts, offset)
      == Prepend(Flatten(reg, cs), ParseFrom(reg, trimmed, parts, offset + |AllSegments(reg, cs)|))
    decreases |cs|
  {
    hide PartBytes, ParseFrom, Segments, Named;
    var rest := ParseFrom(reg, trimmed, parts, offset + |AllSegments(reg, cs)|);
    if cs == [] {
      PrependNothing(rest);
    } else {
      var c, tail := cs[0], cs[1..];
      var segs := Segments(reg, c);
      assert Inverts(reg, c);
      var behind := AllSegments(reg, tail) + more;
      Assoc(segs, AllSegments(reg, tail), more);
      ParseSegment(reg, trimmed, parts, offset, c, behind);
      ParseSegments(reg, trimmed, parts, offset + |segs|, tail, more);
      Prepended(PartBytes(reg, c), Flatten(reg, tail), rest);
    }
  }

  /** The parser at the segments of one part. */
  lemma {:induction false} ParseSegment(
      reg: Registry, trimmed: string, parts: seq<string>, offset: nat, c: Component, behind: seq<string>)
    requires Named(reg) && Inverts(reg, c)
    requires offset <= |parts| && parts[offset..] == Segments(reg, c) + behind
    ensures var n := |Segments(reg, c)|;
      && offset + n <= |parts| && parts[offset + n..] == behind
      && ParseFrom(reg, trimmed, parts, offset) == Prepend(PartBytes(reg, c), ParseFrom(reg, trimmed, parts, offset + n))
  {
    hide PartBytes, Leb128, PathText;
    var segs := Segments(reg, c);
    assert parts[offset..][0] == parts[offset] == segs[0];
    if reg.protocols[c.code].kind.Marker? {
      MarkerBytes(reg, c);
    } else {
      assert parts[offset..][1] == parts[offset + 1] == segs[1];
    }
    assert parts[offset + |segs|..] == parts[offset..][|segs|..];
  }

  lemma {:induction false} MarkerBytes(reg: Registry, c: Component)
    requires Inverts(reg, c) && reg.protocols[c.code].kind.Marker?
    ensures PartBytes(reg, c) == Leb128(c.code)
  {
    assert Leb128(c.code) + [] == Leb128(c.code);
  }

  /** Printing and parsing a non-empty address of fixed, length-prefixed and marker components, with
      transcoders that invert, gives back the same bytes. */
  lemma {:induction false} TextRoundTrip(reg: Registry, parts: seq<Component>)
    requires Named(reg) && parts != []
    requires forall c :: c in parts ==> Inverts(reg, c) && Readable(reg, c)
    ensures Show(reg, Flatten(reg, parts)).Some?
    ensures Parse(reg, Show(reg, Flatten(reg, parts)).value) == Some(Flatten(reg, parts))
  {
    hide Head, PartBytes, Split, ParseFrom;
    var segs := AllSegments(reg, parts);
    var text := Joined(segs);
    ShowParts(reg, parts, []);
    assert Flatten(reg, parts) + [] == Flatten(reg, parts) && text + "" == text;
    SegmentsClean(reg, parts);
    JoinedLast(segs);
    assert Trimmed(text) == text;
    SplitJoined(segs, "");
    assert Split("")[1..] == [] by { SplitEmpty(); }
    assert [""] + (segs + []) == [""] + segs && segs + [] == segs;
    var pieces := Split(text);
    assert pieces[1..] == segs + [];
    ParseSegments(reg, text, pieces, 1, parts, []);
    ParseEnd(reg, text, pieces);
    assert Flatten(reg, parts) + [] == Flatten(reg, parts);
  }

  lemma {:induction false} SplitEmpty()
    ensures Split("")[1..] == []
  {
  }

  lemma {:induction false} ParseEnd(reg: Registry, trimmed: string, parts: seq<string>)
    ensures ParseFrom(reg, trimmed, parts, |parts|) == Some([])
  {
  }

  /** The payload a path's text stands for. */
  function PathBytes(s: string): Option<seq<byte>> {
    if s != "" && Latin(s) then Some(Bytes(s)) else None
  }

  /** The transcoder of the path protocols: the text is the payload. */
  ghost predicate PathCoded(reg: Registry, code: nat) {
    && code in reg.protocols
    && reg.protocols[code].kind.Path?
    && reg.protocols[code].coder.Some?
    && (forall bs :: bs != [] ==> reg.protocols[code].coder.value.show(bs) == Some(Chars(bs)))
    && (forall s :: reg.protocols[code].coder.value.parse(s) == PathBytes(s))
  }

  /** Where a path behind `parts` survives the text form: it starts with a slash, does not end in one,
      and its protocol name stands between slashes nowhere before its own place. */
  ghost predicate PathKept(reg: Registry, parts: seq<Component>, path: Component)
    requires forall c :: c in parts ==> Inverts(reg, c)
    requires PathCoded(reg, path.code) && path.payload != []
  {
    var text := Chars(path.payload);
    var before := Joined(AllSegments(reg, parts));
    var name := reg.protocols[path.code].name;
    && text[0] == SLASH
    && text[|text| - 1] != SLASH
    && Find(Ending(before, name, text), Delimited(name)) == Some(|before|)
  }

  /** A path's text: a slash is put in front unless it has one. */
  function Rooted(text: string): (r: string)
    requires text != ""
    ensures |r| >= |text| && r[0] == SLASH && r[|r| - 1] == text[|text| - 1]
    ensures r == text <==> text[0] == SLASH
  {
    if text[0] == SLASH then text else [SLASH] + text
  }

  lemma {:induction false} ShowWithPath(reg: Registry, parts: seq<Component>, path: Component)
    requires forall c :: c in parts ==> Inverts(reg, c) && Readable(reg, c)
    requires Readable(reg, path) && PathCoded(reg, path.code) && path.payload != []
    ensures Show(reg, Flatten(reg, parts + [path]))
      == Some(Ending(Joined(AllSegments(reg, parts)), reg.protocols[path.code].name, Rooted(Chars(path.payload))))
  {
    hide Head, PartBytes, AllSegments;
    var text, name := Chars(path.payload), reg.protocols[path.code].name;
    FlattenAppend(reg, parts, [path]);
    FlattenOne(reg, path);
    ShowParts(reg, parts, PartBytes(reg, path));
    HeadEncoded(reg, path, []);
    assert PartBytes(reg, path) + [] == PartBytes(reg, path);
    PartBytesNotEmpty(reg, path);
    var shown := [SLASH] + name + Rooted(text);
    assert text[0] != SLASH ==> shown == [SLASH] + name + [SLASH] + text;
    assert shown + "" == shown;
  }

  /** The pieces of a text that ends in a path behind the segments of `parts`. */
  lemma {:induction false} SplitWithPath(segs: seq<string>, name: string, tail: string)
    requires SlashFree(name) && forall i :: 0 <= i < |segs| ==> SlashFree(segs[i])
    requires tail != "" ==> tail[0] == SLASH
    ensures var pieces := Split(Ending(Joined(segs), name, tail));
      |pieces| > 1 && pieces[1..] == segs + ([name] + Split(tail)[1..])
    ensures |Split(tail)| > 1 <==> tail != ""
  {
    SplitMore(tail);
    JoinedOne(name);
    hide Split, Joined;
    JoinedAppend(segs, [name]);
    Assoc(Joined(segs), [SLASH] + name, tail);
    assert Ending(Joined(segs), name, tail) == Joined(segs + [name]) + tail;
    SplitJoined(segs + [name], tail);
    Assoc(segs, [name], Split(tail)[1..]);
  }

  lemma {:induction false} JoinedOne(name: string)
    ensures Joined([name]) == [SLASH] + name
  {
    assert [name][1..] == [] && Joined([]) == "";
  }

  lemma {:induction false} SplitMore(s: string)
    requires s != "" ==> s[0] == SLASH
    ensures |Split(s)| > 1 <==> s != ""
  {
  }

  /** The text the parser takes as the path when it reaches a path protocol behind `before`. */
  function TakenPath(before: string, name: string, tail: string): (taken: string)
    requires tail != "" && tail[0] == SLASH
    ensures taken != "" && taken[0] == SLASH && taken[|taken| - 1] == tail[|tail| - 1]
    ensures |taken| == |before| + |tail| - Find(Ending(before, name, tail), Delimited(name)).value
  {
    var s := Ending(before, name, tail);
    var k := Find(s, Delimited(name)).value;
    assert s[k..k + |name| + 2][|name| + 1] == SLASH;
    s[k + |name| + 1..]
  }

  /** Behind the segments of `parts`, the parser takes a path from the first place its name stands. */
  lemma {:induction false} ParseWithPath(reg: Registry, parts: seq<Component>, code: nat, tail: string)
    requires Named(reg) && forall c :: c in parts ==> Inverts(reg, c)
    requires PathCoded(reg, code)
    requires tail != "" ==> tail[0] == SLASH
    ensures var name := reg.protocols[code].name;
      var before := Joined(AllSegments(reg, parts));
      var trimmed := Ending(before, name, tail);
      ParseFrom(reg, trimmed, Split(trimmed), 1)
        == if tail == "" || !Latin(TakenPath(before, name, tail)) then None
           else Some(Flatten(reg, parts) + PartBytes(reg, Component(code, Bytes(TakenPath(before, name, tail)))))
  {
    hide PartBytes, Split, Leb128, Joined, Ending, Delimited, ParseFrom, FindFrom, Inverts;
    var name := reg.protocols[code].name;
    var segs := AllSegments(reg, parts);
    var trimmed := Ending(Joined(segs), name, tail);
    var more := Split(tail)[1..];
    var pieces := Split(trimmed);
    SegmentsClean(reg, parts);
    SplitWithPath(segs, name, tail);
    ParseSegments(reg, trimmed, pieces, 1, parts, [name] + more);
    hide AllSegments, Flatten, SlashFree;
    PieceAt(pieces, segs, name, more);
    ParseThePath(reg, trimmed, pieces, 1 + |segs|, code);
  }

  lemma {:induction false} PieceAt(pieces: seq<string>, segs: seq<string>, name: string, more: seq<string>)
    requires |pieces| > 1 && pieces[1..] == segs + ([name] + more)
    ensures |pieces| == 2 + |segs| + |more| && pieces[1 + |segs|] == name
  {
    assert pieces[1..][|segs|] == name;
  }

  /** The parser at a path protocol. */
  lemma {:induction false} ParseThePath(reg: Registry, trimmed: string, pieces: seq<string>, at: nat, code: nat)
    requires Named(reg) && PathCoded(reg, code) && at < |pieces| && pieces[at] == reg.protocols[code].name
    ensures ParseFrom(reg, trimmed, pieces, at)
      == if at + 1 >= |pieces| then None
         else match PathBytes(PathText(trimmed, pieces, at))
              case None => None
              case Some(payload) => Some(PartBytes(reg, Component(code, payload)))
  {
    hide PartBytes, PathText;
  }

  /** Two parts of one protocol with the same bytes have the same payload. */
  lemma {:induction false} SamePayload(reg: Registry, code: nat, p: seq<byte>, q: seq<byte>)
    requires PartBytes(reg, Component(code, p)) == PartBytes(reg, Component(code, q))
    ensures p == q
  {
    hide Leb128;
    var fp := if code in reg.protocols then Framed(reg.protocols[code], p) else p;
    var fq := if code in reg.protocols then Framed(reg.protocols[code], q) else q;
    PrefixFree(code, code, fp, fq);
    if code in reg.protocols && HasPrefix(reg.protocols[code].kind) {
      PrefixFree(|p|, |q|, p, q);
    }
  }

  /** The taken text is the path itself exactly when the path is kept. */
  lemma {:induction false} TakenIsKept(before: string, name: string, text: string, tail: string)
    requires text != "" && tail != "" && tail == Trimmed(Rooted(text))
    ensures TakenPath(before, name, tail) == text
      <==> text[0] == SLASH && text[|text| - 1] != SLASH
           && Find(Ending(before, name, text), Delimited(name)) == Some(|before|)
  {
    hide FindFrom, Delimited, Ending;
    var taken := TakenPath(before, name, tail);
    if taken == text || (text[0] == SLASH && text[|text| - 1] != SLASH) {
      assert tail == text;
      var k := Find(Ending(before, name, text), Delimited(name)).value;
      assert k == |before| ==> taken == text;
    }
  }

  lemma {:induction false} TrimEnding(before: string, name: string, tail: string)
    requires name != "" && SlashFree(name)
    ensures Trimmed(Ending(before, name, tail)) == Ending(before, name, Trimmed(tail))
  {
    var front := before + ([SLASH] + name);
    Assoc(before, [SLASH] + name, tail);
    Assoc(before, [SLASH] + name, Trimmed(tail));
    TrimBehind(front, tail);
  }

  /** What printing and parsing parts and a path comes to. */
  lemma {:induction false} PathParsed(reg: Registry, parts: seq<Component>, path: Component)
    requires Named(reg) && forall c :: c in parts ==> Inverts(reg, c) && Readable(reg, c)
    requires Readable(reg, path) && PathCoded(reg, path.code) && path.payload != []
    ensures Show(reg, Flatten(reg, parts + [path])).Some?
    ensures var name := reg.protocols[path.code].name;
      var before, tail := Joined(AllSegments(reg, parts)), Trimmed(Rooted(Chars(path.payload)));
      Parse(reg, Show(reg, Flatten(reg, parts + [path])).value)
        == if tail == "" || !Latin(TakenPath(before, name, tail)) then None
           else Some(Flatten(reg, parts) + PartBytes(reg, Component(path.code, Bytes(TakenPath(before, name, tail)))))
  {
    hide PartBytes, Split, Show, ParseFrom, AllSegments, Flatten, Ending, Joined, TakenPath, Trimmed, Rooted, Readable;
    hide Inverts, Bytes;
    var text, name := Chars(path.payload), reg.protocols[path.code].name;
    var before := Joined(AllSegments(reg, parts));
    ShowWithPath(reg, parts, path);
    EndingIsRooted(reg, parts, name, Rooted(text));
    TrimEnding(before, name, Rooted(text));
    ParseWithPath(reg, parts, path.code, Trimmed(Rooted(text)));
  }

  /** A path behind inverting components survives printing and parsing exactly when it is kept. */
  lemma {:induction false} PathRoundTripIff(reg: Registry, parts: seq<Component>, path: Component)
    requires Named(reg) && forall c :: c in parts ==> Inverts(reg, c) && Readable(reg, c)
    requires Readable(reg, path) && PathCoded(reg, path.code) && path.payload != []
    ensures Show(reg, Flatten(reg, parts + [path])).Some?
    ensures Parse(reg, Show(reg, Flatten(reg, parts + [path])).value) == Some(Flatten(reg, parts + [path]))
      <==> PathKept(reg, parts, path)
  {
    hide PartBytes, Show, Parse, AllSegments, Find, Flatten, Ending, Delimited, Joined, Readable, Inverts, Named, TakenPath;
    var text, name := Chars(path.payload), reg.protocols[path.code].name;
    var before, tail := Joined(AllSegments(reg, parts)), Trimmed(Rooted(text));
    PathParsed(reg, parts, path);
    FlattenAppend(reg, parts, [path]);
    FlattenOne(reg, path);
    if tail != "" {
      var taken := TakenPath(before, name, tail);
      TakenIsKept(before, name, text, tail);
      BytesOfChars(path.payload);
      if Latin(taken) {
        CharsOfBytes(taken);
        SameEnd(reg, Flatten(reg, parts), path.code, Bytes(taken), path.payload);
      }
    }
  }

  lemma {:induction false} SameEnd(reg: Registry, front: Address, code: nat, p: seq<byte>, q: seq<byte>)
    ensures front + PartBytes(reg, Component(code, p)) == front + PartBytes(reg, Component(code, q)) <==> p == q
  {
    hide PartBytes;
    var x, y := PartBytes(reg, Component(code, p)), PartBytes(reg, Component(code, q));
    if front + x == front + y {
      assert x == (front + x)[|front|..] && y == (front + y)[|front|..];
      SamePayload(reg, code, p, q);
    }
  }

  lemma {:induction false} EndingIsRooted(reg: Registry, parts: seq<Component>, name: string, tail: string)
    requires name != "" && forall c :: c in parts ==> Inverts(reg, c)
    ensures var full := Ending(Joined(AllSegments(reg, parts)), name, tail); |full| > 1 && full[0] == SLASH
  {
    var before := Joined(AllSegments(reg, parts));
    assert before != "" ==> before[0] == SLASH;
  }
}
