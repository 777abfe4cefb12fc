/** Exactly which texts `init(string)` of `libp2p/multiaddress.nim` takes, and for which components. */
module MultiaddressSpelling {
  import opened Basics
  import opened Varint
  import opened Multiaddress
  import opened Text
  import opened MultiaddressText

  /** The text behind the first place where the name stands between slashes, from its second slash on. */
  ghost predicate IsPathOf(trimmed: string, name: string, path: string) {
    exists k: nat :: Occurs(trimmed, "/" + name + "/", k) && path == trimmed[k + |name| + 1..] &&
                     forall j: nat :: j < k ==> !Occurs(trimmed, "/" + name + "/", j)
  }

  /** The segments from `at` on spell the components: each a registered name, behind it for any but a marker
      the text of the payload, which for a path is the whole rest. */
  ghost predicate Spells(reg: Registry, trimmed: string, segs: seq<string>, at: nat, cs: seq<Component>)
    decreases |cs|
  {
    if cs == [] then at >= |segs|
    else
      var c := cs[0];
      && at < |segs| && segs[at] in reg.names && reg.names[segs[at]] == c.code && c.code in reg.protocols
      && var p := reg.protocols[c.code];
         if p.kind.Marker? then c.payload == [] && Spells(reg, trimmed, segs, at + 1, cs[1..])
         else
           && p.coder.Some? && at + 1 < |segs|
           && if p.kind.Path? then
                |cs| == 1 && exists path :: IsPathOf(trimmed, segs[at], path) && p.coder.value.parse(path) == Some(c.payload)
              else p.coder.value.parse(segs[at + 1]) == Some(c.payload) && Spells(reg, trimmed, segs, at + 2, cs[1..])
  }

  /** A segment with one behind it stands between slashes. */
  lemma {:induction false} SegmentOccurs(s: string, at: nat) returns (k: nat)
    requires 0 < at && at + 1 < |Split(s)|
    ensures Occurs(s, "/" + Split(s)[at] + "/", k)
  {
    NotEmpty(s);
    hide Split, Occurs;
    NextSegment(s, at);
    var name := Split(s)[at];
    if s[0] == SLASH && at == 1 {
      FirstSegment(s[1..]);
      k := 0;
      assert s[0..|name| + 2] == "/" + name + "/";
      OccursHere(s, "/" + name + "/");
    } else {
      k := SegmentOccurs(s[1..], if s[0] == SLASH then at - 1 else at);
      OccursBehind(s, "/" + name + "/", k);
      k := k + 1;
    }
  }

  lemma {:induction false} NotEmpty(s: string)
    requires |Split(s)| > 1
    ensures s != ""
  {
  }

  lemma {:induction false} OccursHere(s: string, pat: string)
    requires |pat| <= |s| && s[..|pat|] == pat
    ensures Occurs(s, pat, 0)
  {
  }

  lemma {:induction false} OccursBehind(s: string, pat: string, k: nat)
    requires s != "" && Occurs(s[1..], pat, k)
    ensures Occurs(s, pat, k + 1)
  {
    assert s[k + 1..k + 1 + |pat|] == s[1..][k..k + |pat|];
  }

  lemma {:induction false} NextSegment(s: string, at: nat)
    requires s != "" && 0 < at < |Split(s)|
    ensures var next := if s[0] == SLASH then at - 1 else at;
            && next < |Split(s[1..])| && Split(s)[at] == Split(s[1..])[next]
            && |Split(s)| - at == |Split(s[1..])| - next
  {
    var tail := Split(s[1..]);
    if s[0] == SLASH {
      assert Split(s) == [""] + tail;
    } else {
      assert Split(s) == [[s[0]] + tail[0]] + tail[1..];
    }
  }

  lemma {:induction false} FirstSegment(s: string)
    requires |Split(s)| > 1
    ensures |Split(s)[0]| < |s| && s[..|Split(s)[0]|] == Split(s)[0] && s[|Split(s)[0]|] == SLASH
  {
    if s[0] != SLASH {
      FirstSegment(s[1..]);
      var n := |Split(s[1..])[0]|;
      assert s[..n + 1] == [s[0]] + s[1..][..n];
    }
  }

  /** What the parser takes for a path. */
  lemma {:induction false} PathIs(trimmed: string, at: nat, path: string)
    requires 0 < at && at + 1 < |Split(trimmed)|
    ensures IsPathOf(trimmed, Split(trimmed)[at], path) <==> path == PathText(trimmed, Split(trimmed), at)
  {
    hide Split;
    var name := Split(trimmed)[at];
    var pat := "/" + name + "/";
    assert Delimited(name) == pat;
    var i := SegmentOccurs(trimmed, at);
    var k := Find(trimmed, pat).value;
    assert forall j: nat :: j < k ==> !Occurs(trimmed, pat, j);
    if IsPathOf(trimmed, name, path) {
      var m: nat :| Occurs(trimmed, pat, m) && path == trimmed[m + |name| + 1..] &&
                    forall j: nat :: j < m ==> !Occurs(trimmed, pat, j);
      assert m == k;
    }
  }

  lemma {:induction false} Parses(reg: Registry, trimmed: string, at: nat, cs: seq<Component>)
    requires at > 0 && Spells(reg, trimmed, Split(trimmed), at, cs)
    ensures ParseFrom(reg, trimmed, Split(trimmed), at) == Some(Flatten(reg, cs))
    decreases |cs|
  {
    hide Split, PathText, IsPathOf, Leb128, Framed;
    if cs != [] {
      var segs, c := Split(trimmed), cs[0];
      var p := reg.protocols[c.code];
      if p.kind.Marker? {
        Parses(reg, trimmed, at + 1, cs[1..]);
        MarkerPart(reg, c);
      } else if p.kind.Path? {
        var path :| IsPathOf(trimmed, segs[at], path) && p.coder.value.parse(path) == Some(c.payload);
        PathIs(trimmed, at, path);
        assert cs == [c];
        FlattenOne(reg, c);
      } else {
        Parses(reg, trimmed, at + 2, cs[1..]);
      }
    }
  }

  lemma {:induction false} MarkerPart(reg: Registry, c: Component)
    requires c.code in reg.protocols && reg.protocols[c.code].kind.Marker? && c.payload == []
    ensures PartBytes(reg, c) == Leb128(c.code)
  {
    assert Leb128(c.code) + [] == Leb128(c.code);
  }

  lemma {:induction false} Spelled(reg: Registry, trimmed: string, at: nat) returns (cs: seq<Component>)
    requires at > 0 && ParseFrom(reg, trimmed, Split(trimmed), at).Some?
    ensures Spells(reg, trimmed, Split(trimmed), at, cs)
    ensures ParseFrom(reg, trimmed, Split(trimmed), at).value == Flatten(reg, cs)
    decreases |Split(trimmed)| - at
  {
    hide Split, PathText, IsPathOf, Leb128, Framed;
    var segs := Split(trimmed);
    if at >= |segs| {
      cs := [];
    } else {
      var code := CodeOf(reg, segs[at]).value;
      var p := reg.protocols[code];
      if p.kind.Marker? {
        var rest := Spelled(reg, trimmed, at + 1);
        var c := Component(code, []);
        MarkerPart(reg, c);
        cs := [c] + rest;
        assert cs[1..] == rest;
      } else if p.kind.Path? {
        var path := PathText(trimmed, segs, at);
        PathIs(trimmed, at, path);
        var c := Component(code, p.coder.value.parse(path).value);
        cs := [c];
        FlattenOne(reg, c);
      } else {
        var rest := Spelled(reg, trimmed, at + 2);
        cs := [Component(code, p.coder.value.parse(segs[at + 1]).value)] + rest;
        assert cs[1..] == rest;
      }
    }
  }

  /** A text is parsed exactly when it starts with a slash, is more than that, and its segments without the
      trailing slashes spell components; the address is their bytes. */
  lemma {:induction false} ParsesIff(reg: Registry, value: string, bs: Address)
    ensures Parse(reg, value) == Some(bs) <==>
            && |value| > 1 && value[0] == '/'
            && exists cs :: Spells(reg, Trimmed(value), Split(Trimmed(value)), 1, cs) && bs == Flatten(reg, cs)
  {
    hide ParseFrom, Spells, Flatten, Split, Trimmed;
    if Parse(reg, value) == Some(bs) {
      var cs := Spelled(reg, Trimmed(value), 1);
    }
    if |value| > 1 && value[0] == '/' {
      forall cs | Spells(reg, Trimmed(value), Split(Trimmed(value)), 1, cs)
        ensures Parse(reg, value) == Some(Flatten(reg, cs))
      {
        Parses(reg, Trimmed(value), 1, cs);
      }
    }
  }
}
