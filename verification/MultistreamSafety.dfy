/** The channel invariant of a negotiation: what is in flight is a slice of the dialer's script or of the
    listener's answers to it, however the steps of the two sides interleave. */
module MultistreamSafety {
  import opened Basics
  import opened Multistream

  /** All the dialer would send. */
  function Script(p: seq<string>): (r: seq<string>)
    ensures |r| == |p| + 1
  {
    [Line(CODEC)] + seq(|p|, i requires 0 <= i < |p| => Line(p[i]))
  }

  /** The answer to each line of the script. */
  function Replies(p: seq<string>, l: Support): (r: seq<string>)
    ensures |r| == |p| + 1
  {
    [Line(CODEC)] + seq(|p|, i requires 0 <= i < |p| => Answer(l, p[i]))
  }

  /** The number of messages the dialer has sent. */
  function Sent(p: seq<string>, d: Dialer): nat {
    match d
    case SendHeader => 0
    case SendFirst => 1
    case ReadHeader => if p == [] then 1 else 2
    case ReadReply(i) => i + 2
    case SendNext(i) => i + 1
    case Selected(_, asked) => asked + 1
  }

  /** The number of messages the dialer has read. */
  function Taken(d: Dialer): nat {
    match d
    case ReadReply(i) => i + 1
    case SendNext(i) => i + 1
    case Selected(_, asked) => asked + 1
    case _ => 0
  }

  predicate NoneEchoed(p: seq<string>, l: Support, n: nat) {
    n <= |p| && forall j :: 0 <= j < n ==> !Echoed(l, p[j])
  }

  predicate NoneTaken(p: seq<string>, l: Support, n: nat) {
    n <= |p| && forall j :: 0 <= j < n ==> !Takes(l, p[j])
  }

  /** What the dialer's place in its program says about the answers so far. */
  predicate DialerInv(p: seq<string>, l: Support, d: Dialer) {
    match d
    case SendHeader => true
    case SendFirst => p != []
    case ReadHeader => true
    case ReadReply(i) => i < |p| && NoneEchoed(p, l, i)
    case SendNext(i) => 0 < i < |p| && NoneEchoed(p, l, i)
    case Selected(outcome, asked) =>
      if p == [] then outcome == Ok(CODEC) && asked == 0
      else if outcome == Ok("") then asked == |p| && NoneEchoed(p, l, |p|)
      else 0 < asked <= |p| && outcome == Ok(p[asked - 1]) && Echoed(l, p[asked - 1]) &&
           NoneEchoed(p, l, asked - 1)
  }

  /** What the listener's place says, `read` messages in and `sent` messages out. */
  predicate ListenerInv(p: seq<string>, l: Support, s: State, read: nat, sent: nat) {
    match s.listener
    case Reading(false) => read == 0 && sent == 0
    case Reading(true) => read >= 1 && sent == read && NoneTaken(p, l, read - 1)
    case Writing(message, taken) =>
      && 1 <= read <= |p| + 1 && sent == read - 1
      && message == Replies(p, l)[read - 1]
      && (match taken
          case None => NoneTaken(p, l, read - 1)
          case Some(ms) => TookLast(p, l, read, ms))
    case Handled(Ok(ms)) => (sent == read && TookLast(p, l, read, ms)) || Ended(p, l, s, read)
    case Handled(Err(_)) => Ended(p, l, s, read)
  }

  /** The last message read is the first proposal taken. */
  predicate TookLast(p: seq<string>, l: Support, read: nat, ms: string) {
    2 <= read <= |p| + 1 && ms == p[read - 2] && Takes(l, ms) && NoneTaken(p, l, read - 2)
  }

  /** The listener met the end of the stream: the dialer was done, and no message was left unread. */
  predicate Ended(p: seq<string>, l: Support, s: State, read: nat) {
    && s.closed && s.dialer.Selected? && s.toListener == [] && s.toDialer == []
    && (s.listener == Handled(Ok("")) || s.listener == Handled(Err(StreamFailed)))
    && 1 <= read && NoneTaken(p, l, read - 1)
  }

  predicate Inv(p: seq<string>, l: Support, s: State) {
    var sent := Sent(p, s.dialer);
    var taken := Taken(s.dialer);
    && DialerInv(p, l, s.dialer)
    && sent <= |p| + 1
    && |s.toListener| <= sent
    && s.toListener == Script(p)[sent - |s.toListener|..sent]
    && taken + |s.toDialer| <= |p| + 1
    && s.toDialer == Replies(p, l)[taken..taken + |s.toDialer|]
    && ListenerInv(p, l, s, sent - |s.toListener|, taken + |s.toDialer|)
    && (s.closed ==> s.dialer.Selected?)
  }

  lemma {:induction false} StartHolds(p: seq<string>, l: Support)
    ensures Inv(p, l, START)
  {
  }

  /** The next script message, read by the listener. */
  lemma {:induction false} HearsScript(p: seq<string>, l: Support, k: nat)
    requires Fits(p, l)
    requires k <= |p|
    ensures ReadMessage(Script(p)[k]) == Ok(if k == 0 then CODEC else p[k - 1])
  {
    if k == 0 {
      DecodeIff(Line(CODEC), CODEC);
    } else {
      DecodeIff(Line(p[k - 1]), p[k - 1]);
    }
  }

  /** The next reply, read by the dialer. */
  lemma {:induction false} ReadsReply(p: seq<string>, l: Support, k: nat)
    requires Fits(p, l)
    requires k <= |p|
    ensures ReadMessage(Replies(p, l)[k]).Ok?
    ensures k == 0 ==> ReadMessage(Replies(p, l)[k]) == Ok(CODEC)
    ensures k > 0 ==> (ReadMessage(Replies(p, l)[k]) == Ok(p[k - 1]) <==> Echoed(l, p[k - 1]))
  {
    hide Takes, Line;
    if k == 0 {
      DecodeIff(Line(CODEC), CODEC);
    } else {
      DecodeIff(Replies(p, l)[k], p[k - 1]);
      assert p[k - 1] in p;
    }
  }

  /** A slice grows at its end. */
  lemma {:induction false} Grows<T>(all: seq<T>, from: nat, to: nat)
    requires from <= to < |all|
    ensures all[from..to] + [all[to]] == all[from..to + 1]
  {
  }

  lemma {:induction false} ScriptAt(p: seq<string>, d: Dialer)
    requires Sends(p, d).Some?
    requires Sent(p, d) <= |p|
    ensures Sends(p, d).value == Script(p)[Sent(p, d)]
    ensures Sent(p, AfterSend(p, d)) == Sent(p, d) + 1
    ensures Taken(AfterSend(p, d)) == Taken(d)
  {
    hide Line;
  }

  lemma {:induction false} AfterSendHolds(p: seq<string>, l: Support, d: Dialer)
    requires DialerInv(p, l, d) && Sends(p, d).Some?
    ensures DialerInv(p, l, AfterSend(p, d))
    ensures Sent(p, d) <= |p|
  {
    hide Echoed, NoneEchoed, Line;
    NoneYet(p, l);
  }

  lemma {:induction false} NoneYet(p: seq<string>, l: Support)
    ensures NoneEchoed(p, l, 0)
  {
  }

  lemma {:induction false} DialerSendKeeps(p: seq<string>, l: Support, s: State)
    requires Inv(p, l, s)
    requires Sends(p, s.dialer).Some?
    ensures Inv(p, l, Apply(p, l, s, DialerMoves))
  {
    hide DialerInv, ListenerInv, Script, Replies, Sent, Taken, Sends, AfterSend;
    var t := Apply(p, l, s, DialerMoves);
    var sent := Sent(p, s.dialer);
    AfterSendHolds(p, l, s.dialer);
    ScriptAt(p, s.dialer);
    Grows(Script(p), sent - |s.toListener|, sent);
    StillOpen(p, s.dialer);
    SendKeepsListener(p, l, s, t, sent - |s.toListener|, Taken(s.dialer) + |s.toDialer|);
  }

  lemma {:induction false} StillOpen(p: seq<string>, d: Dialer)
    requires Sends(p, d).Some? || Reads(d)
    ensures !d.Selected?
  {
  }

  lemma {:induction false} SendKeepsListener(p: seq<string>, l: Support, s: State, t: State, read: nat, sent: nat)
    requires ListenerInv(p, l, s, read, sent)
    requires !s.closed && t.listener == s.listener
    ensures ListenerInv(p, l, t, read, sent)
  {
    hide Replies, NoneTaken, TookLast;
  }

  lemma {:induction false} AfterReadHolds(p: seq<string>, l: Support, d: Dialer)
    requires Fits(p, l)
    requires DialerInv(p, l, d)
    requires Reads(d)
    requires Taken(d) <= |p|
    ensures var e := AfterRead(p, d, Replies(p, l)[Taken(d)]);
            DialerInv(p, l, e) && Taken(e) == Taken(d) + 1 && Sent(p, e) == Sent(p, d)
  {
    hide Answer, Takes, Line, ReadMessage, Echoed;
    ReadsReply(p, l, Taken(d));
    if d.ReadReply? {
      FalseEcho(l, p[d.i]);
    }
  }

  lemma {:induction false} ReadsNotSends(p: seq<string>, d: Dialer)
    requires Reads(d)
    ensures Sends(p, d).None?
  {
  }

  lemma {:induction false} DialerReadKeeps(p: seq<string>, l: Support, s: State)
    requires Fits(p, l)
    requires Inv(p, l, s)
    requires Reads(s.dialer) && s.toDialer != []
    ensures Inv(p, l, Apply(p, l, s, DialerMoves))
  {
    hide DialerInv, ListenerInv, Script, Replies, Sent, Taken, AfterRead, Sends;
    StillOpen(p, s.dialer);
    ReadsNotSends(p, s.dialer);
    var t := Apply(p, l, s, DialerMoves);
    var k := Taken(s.dialer);
    var n := |s.toDialer|;
    AfterReadHolds(p, l, s.dialer);
    assert s.toDialer[0] == Replies(p, l)[k];
    assert s.toDialer[1..] == Replies(p, l)[k + 1..k + n];
    SendKeepsListener(p, l, s, t, Sent(p, s.dialer) - |s.toListener|, k + n);
  }

  lemma {:induction false} ListenerWriteKeeps(p: seq<string>, l: Support, s: State)
    requires Inv(p, l, s)
    requires s.listener.Writing?
    ensures Inv(p, l, Apply(p, l, s, ListenerMoves))
  {
    hide Answer, Takes, Line, Echoed;
    var k := Taken(s.dialer);
    var n := k + |s.toDialer|;
    var all := Replies(p, l);
    assert s.listener.message == all[n];
    assert all[k..n] + [all[n]] == all[k..n + 1];
  }

  lemma {:induction false} ListenerReadKeeps(p: seq<string>, l: Support, s: State)
    requires Fits(p, l)
    requires Inv(p, l, s)
    requires s.listener.Reading? && s.toListener != []
    ensures Inv(p, l, Apply(p, l, s, ListenerMoves))
  {
    hide Answer, Takes, Line, Echoed, ReadMessage;
    var sent := Sent(p, s.dialer);
    var k := sent - |s.toListener|;
    HearsScript(p, l, k);
    assert s.toListener[0] == Script(p)[k];
    assert s.toListener[1..] == Script(p)[k + 1..sent];
    if k > 0 {
      assert Replies(p, l)[k] == Answer(l, p[k - 1]);
    }
  }

  lemma {:induction false} EndKeeps(p: seq<string>, l: Support, s: State, clean: bool)
    requires Inv(p, l, s)
    requires Enabled(p, s, MeetEnd(clean))
    ensures Inv(p, l, Apply(p, l, s, MeetEnd(clean)))
  {
    hide Answer, Takes, Line, Echoed, NoneTaken, NoneEchoed;
  }

  lemma {:induction false} StepKeeps(p: seq<string>, l: Support, s: State, e: Event)
    requires Fits(p, l)
    requires Inv(p, l, s)
    requires Enabled(p, s, e)
    ensures Inv(p, l, Apply(p, l, s, e))
  {
    hide Inv, Sends;
    match e
    case DialerMoves =>
      if Sends(p, s.dialer).Some? {
        DialerSendKeeps(p, l, s);
      } else {
        DialerReadKeeps(p, l, s);
      }
    case ListenerMoves =>
      if s.listener.Writing? {
        ListenerWriteKeeps(p, l, s);
      } else {
        ListenerReadKeeps(p, l, s);
      }
    case Close => CloseKeeps(p, l, s);
    case MeetEnd(clean) => EndKeeps(p, l, s, clean);
  }

  lemma {:induction false} CloseKeeps(p: seq<string>, l: Support, s: State)
    requires Inv(p, l, s)
    requires Enabled(p, s, Close)
    ensures Inv(p, l, Apply(p, l, s, Close))
  {
    hide Answer, Takes, Line, Echoed, NoneTaken, NoneEchoed;
  }

  /** Every state of every run. */
  lemma {:induction false} RunKeeps(p: seq<string>, l: Support, s: State, events: seq<Event>, end: State)
    requires Fits(p, l)
    requires Inv(p, l, s)
    requires Runs(p, l, s, events, end)
    ensures Inv(p, l, end)
    decreases events
  {
    hide Inv, Apply, Enabled;
    if events != [] {
      StepKeeps(p, l, s, events[0]);
      RunKeeps(p, l, Apply(p, l, s, events[0]), events[1..], end);
    }
  }

  ghost predicate Reachable(p: seq<string>, l: Support, s: State) {
    exists events :: Runs(p, l, START, events, s)
  }

  lemma {:induction false} ReachableHolds(p: seq<string>, l: Support, s: State)
    requires Fits(p, l)
    requires Reachable(p, l, s)
    ensures Inv(p, l, s)
  {
    hide Inv;
    var events :| Runs(p, l, START, events, s);
    StartHolds(p, l);
    RunKeeps(p, l, START, events, s);
  }
}
