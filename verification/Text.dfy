/** String helpers behind the text form of a multiaddress: splitting at slashes, trimming trailing
    ones, finding a substring. */
module Text {
  import opened Basics

  const SLASH := '/'

  /** A Nim string is a byte sequence; these map one to the other. */
  function Chars(bs: seq<byte>): (s: string)
    ensures |s| == |bs|
    ensures forall i :: 0 <= i < |s| ==> s[i] == bs[i] as char
  {
    seq(|bs|, i requires 0 <= i < |bs| => bs[i] as char)
  }

  function Bytes(s: string): (bs: seq<byte>)
    ensures |bs| == |s|
    ensures forall i :: 0 <= i < |s| ==> bs[i] == s[i] as int % 256
  {
    seq(|s|, i requires 0 <= i < |s| => s[i] as int % 256)
  }

  /** All a Nim string can hold. */
  predicate Latin(s: string) {
    forall i :: 0 <= i < |s| ==> s[i] as int < 256
  }

  lemma {:induction false} BytesOfChars(bs: seq<byte>)
    ensures Bytes(Chars(bs)) == bs && Latin(Chars(bs))
  {
  }

  lemma {:induction false} CharsOfBytes(s: string)
    requires Latin(s)
    ensures Chars(Bytes(s)) == s
  {
  }

  predicate SlashFree(s: string) {
    forall i :: 0 <= i < |s| ==> s[i] != SLASH
  }

  /** `s.split('/')`. */
  function Split(s: string): (parts: seq<string>)
    ensures |parts| >= 1
  {
    if s == "" then [""]
    else
      var tail := Split(s[1..]);
      if s[0] == SLASH then [""] + tail else [[s[0]] + tail[0]] + tail[1..]
  }

  /** Every segment behind a slash. */
  function Joined(segs: seq<string>): string {
    if segs == [] then "" else [SLASH] + segs[0] + Joined(segs[1..])
  }

  /** Text from a slash on does not touch the segment in front of it. */
  lemma {:induction false} SplitBehind(seg: string, rest: string)
    requires rest != "" ==> rest[0] == SLASH
    requires SlashFree(seg)
    ensures Split(seg + rest) == [seg] + Split(rest)[1..]
  {
    if seg == "" {
      assert seg + rest == rest;
      assert Split(rest)[0] == "";
      assert Split(rest) == [""] + Split(rest)[1..];
    } else {
      assert (seg + rest)[1..] == seg[1..] + rest;
      SplitBehind(seg[1..], rest);
      assert [seg[0]] + seg[1..] == seg;
    }
  }

  lemma {:induction false} SplitSlash(t: string)
    ensures Split([SLASH] + t) == [""] + Split(t)
  {
    assert ([SLASH] + t)[1..] == t;
  }

  lemma {:induction false} JoinedStep(segs: seq<string>, rest: string)
    requires segs != []
    ensures Split(Joined(segs) + rest) == [""] + Split(segs[0] + (Joined(segs[1..]) + rest))
    ensures Joined(segs[1..]) == "" || Joined(segs[1..])[0] == SLASH
  {
    hide Split;
    var tail := Joined(segs[1..]);
    Assoc([SLASH], segs[0], tail);
    Assoc([SLASH], segs[0] + tail, rest);
    Assoc(segs[0], tail, rest);
    SplitSlash(segs[0] + (tail + rest));
  }

  /** Splitting joined slash-free segments gives them back; what follows them is split on its own. */
  lemma {:induction false} SplitJoined(segs: seq<string>, rest: string)
    requires forall i :: 0 <= i < |segs| ==> SlashFree(segs[i])
    requires rest != "" ==> rest[0] == SLASH
    ensures Split(Joined(segs) + rest) == [""] + (segs + Split(rest)[1..])
  {
    hide Split;
    var back := Split(rest)[1..];
    SplitHead(rest);
    if segs == [] {
      assert Joined(segs) + rest == rest;
      assert segs + back == back;
    } else {
      var tail := segs[1..];
      var more := Joined(tail) + rest;
      SplitJoined(tail, rest);
      JoinedStep(segs, rest);
      hide Joined;
      Drop(tail + back, Split(more));
      SplitBehind(segs[0], more);
      Regroup(segs, back);
    }
  }

  lemma {:induction false} SplitHead(s: string)
    requires s != "" ==> s[0] == SLASH
    ensures Split(s) == [""] + Split(s)[1..]
  {
    assert Split(s)[0] == "";
  }

  lemma {:induction false} Drop(xs: seq<string>, ys: seq<string>)
    requires |ys| > 0
    ensures ys == [""] + xs ==> ys[1..] == xs
  {
  }

  lemma {:induction false} Regroup(segs: seq<string>, back: seq<string>)
    requires segs != []
    ensures [""] + ([segs[0]] + (segs[1..] + back)) == [""] + (segs + back)
  {
    assert [segs[0]] + (segs[1..] + back) == segs + back;
  }

  lemma {:induction false} JoinedAppend(xs: seq<string>, ys: seq<string>)
    ensures Joined(xs + ys) == Joined(xs) + Joined(ys)
  {
    if xs == [] {
      assert xs + ys == ys;
    } else {
      assert (xs + ys)[1..] == xs[1..] + ys;
      JoinedAppend(xs[1..], ys);
    }
  }

  /** Joined segments that are not empty do not end in a slash. */
  lemma {:induction false} JoinedLast(segs: seq<string>)
    requires segs != [] && forall i :: 0 <= i < |segs| ==> segs[i] != "" && SlashFree(segs[i])
    ensures Joined(segs) != "" && Joined(segs)[0] == SLASH
    ensures Joined(segs)[|Joined(segs)| - 1] != SLASH
  {
    if |segs| == 1 {
      assert Joined(segs[1..]) == "";
    } else {
      JoinedLast(segs[1..]);
    }
  }

  function Trimmed(s: string): (t: string)
    ensures t <= s
    ensures t != "" ==> t[|t| - 1] != SLASH
    ensures forall i :: |t| <= i < |s| ==> s[i] == SLASH
  {
    if s != "" && s[|s| - 1] == SLASH then Trimmed(s[..|s| - 1]) else s
  }

  lemma {:induction false} TrimBehind(x: string, y: string)
    requires x != "" && x[|x| - 1] != SLASH
    ensures Trimmed(x + y) == x + Trimmed(y)
  {
    var z := x + y;
    if y == "" {
      assert z == x;
    } else if y[|y| - 1] == SLASH {
      assert z[..|z| - 1] == x + y[..|y| - 1];
      TrimBehind(x, y[..|y| - 1]);
    }
  }

  /** `trimRight(s, '/')`. */
  method TrimRight(s: string) returns (t: string)
    ensures t == Trimmed(s)
  {
    hide Trimmed;
    var m := 0;
    var i := |s|;
    assert s[..|s|] == s;
    TrimStep(s, i);
    while i > 0
      invariant 0 <= i <= |s| && m == |s| - i
      invariant Trimmed(s[..i]) == Trimmed(s)
    {
      TrimStep(s, i);
      if s[i - 1] == SLASH {
        m := m + 1;
      } else {
        break;
      }
      i := i - 1;
    }
    TrimStep(s, i);
    t := s[..|s| - m];
  }

  lemma {:induction false} TrimStep(s: string, i: nat)
    requires i <= |s|
    ensures Trimmed(s[..i]) == if i > 0 && s[i - 1] == SLASH then Trimmed(s[..i - 1]) else s[..i]
  {
    if i > 0 {
      assert s[..i][..i - 1] == s[..i - 1];
    }
  }

  predicate Occurs(s: string, pat: string, k: nat) {
    k + |pat| <= |s| && s[k..k + |pat|] == pat
  }

  function FindFrom(s: string, pat: string, from: nat): (r: Option<nat>)
    requires from <= |s|
    ensures r.Some? ==> from <= r.value && Occurs(s, pat, r.value)
    ensures r.Some? ==> forall k :: from <= k < r.value ==> !Occurs(s, pat, k)
    ensures r.None? ==> forall k :: from <= k ==> !Occurs(s, pat, k)
    decreases |s| - from
  {
    if Occurs(s, pat, from) then Some(from)
    else if from == |s| then None
    else FindFrom(s, pat, from + 1)
  }

  /** `s.find(pat)`: the first place `pat` occurs. */
  function Find(s: string, pat: string): (r: Option<nat>) {
    FindFrom(s, pat, 0)
  }
}
