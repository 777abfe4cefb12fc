/** What every negotiation guarantees, over every interleaving of the two sides. */
module MultistreamTheorems {
  import opened Basics
  import opened Multistream
  import opened MultistreamSafety

  /** The dialer ends with the first proposal that is echoed, or with nothing; it never fails. */
  lemma {:induction false} DialerOutcome(p: seq<string>, l: Support, s: State)
    requires Fits(p, l)
    requires Reachable(p, l, s)
    requires s.dialer.Selected?
    ensures p == [] ==> s.dialer == Selected(Ok(CODEC), 0)
    ensures p != [] ==>
              var k := FirstEchoed(l, p, 0);
              s.dialer == if k < |p| then Selected(Ok(p[k]), k + 1) else Selected(Ok(""), |p|)
  {
    hide Echoed;
    ReachableHolds(p, l, s);
    var k := FirstEchoed(l, p, 0);
    if k < |p| {
      FalseEcho(l, p[k]);
    }
    if p != [] && s.dialer.outcome != Ok("") {
      var j := s.dialer.asked - 1;
      FalseEcho(l, p[j]);
      assert j == k;
    }
  }

  /** What the listener ends with is the first proposal it takes, and the dialer ends with nothing else. */
  lemma {:induction false} ListenerOutcome(p: seq<string>, l: Support, s: State, ms: string)
    requires Fits(p, l)
    requires Reachable(p, l, s)
    requires s.listener == Handled(Ok(ms)) && ms != ""
    ensures FirstTaken(l, p, 0) < |p| && ms == p[FirstTaken(l, p, 0)]
    ensures s.dialer.Selected? ==> s.dialer.outcome == Ok(ms)
  {
    hide Takes, Echoed;
    ReachableHolds(p, l, s);
    var sent := Sent(p, s.dialer);
    var j := sent - |s.toListener| - 2;
    assert TookLast(p, l, j + 2, ms);
    assert j == FirstTaken(l, p, 0);
    FalseEcho(l, ms);
  }

  /** When the dialer ended with a proposal, the listener ended with it exactly if it takes it. */
  lemma {:induction false} EndsTogether(p: seq<string>, l: Support, s: State, ms: string)
    requires Fits(p, l)
    requires Reachable(p, l, s)
    requires p != [] && s.dialer.Selected? && s.dialer.outcome == Ok(ms) && ms != ""
    ensures s.listener == Handled(Ok(ms)) <==> Takes(l, ms)
  {
    hide Takes, Echoed;
    ReachableHolds(p, l, s);
    var k := s.dialer.asked - 1;
    assert p[k] == ms;
    if s.listener == Handled(Ok(ms)) {
      ListenerOutcome(p, l, s, ms);
    }
    if Takes(l, ms) {
      TakenIsHandled(p, l, s);
    }
  }

  /** A dialer that stopped at a proposal the listener takes has its answer from a listener that is done. */
  lemma {:induction false} TakenIsHandled(p: seq<string>, l: Support, s: State)
    requires Inv(p, l, s)
    requires p != [] && s.dialer.Selected? && s.dialer.outcome != Ok("")
    requires Takes(l, p[s.dialer.asked - 1])
    ensures s.listener == Handled(Ok(p[s.dialer.asked - 1]))
  {
    hide Takes, Echoed, Script, Replies;
    var k := s.dialer.asked - 1;
    var read := Sent(p, s.dialer) - |s.toListener|;
    var sent := Taken(s.dialer) + |s.toDialer|;
    assert sent >= k + 2 >= read;
    assert !NoneTaken(p, l, k + 1);
  }

  /** Both sides have the first proposal the listener takes; without one, the dialer has none. */
  ghost predicate Agreed(p: seq<string>, l: Support, s: State) {
    var k := FirstTaken(l, p, 0);
    s.dialer.Selected? &&
    if k < |p| then s.dialer.outcome == Ok(p[k]) && s.listener == Handled(Ok(p[k]))
    else s.dialer.outcome == Ok("")
  }

  /** A proposal whose answer repeats it although the listener does not take it. */
  predicate Misleads(l: Support, ms: string) {
    !Takes(l, ms) && (ms == "na" || (ms == "ls" && Lines(l.protos) == "ls"))
  }

  /** In every run, once the dialer is done the two sides agree exactly if no misleading proposal stands
      before the first one the listener takes. */
  lemma {:induction false} AgreementIff(p: seq<string>, l: Support, s: State)
    requires Fits(p, l)
    requires Reachable(p, l, s)
    requires p != [] && s.dialer.Selected?
    ensures Agreed(p, l, s) <==> forall j :: 0 <= j < FirstTaken(l, p, 0) ==> !Misleads(l, p[j])
  {
    hide Takes, Echoed, Reachable, Misleads;
    var k, e := FirstTaken(l, p, 0), FirstEchoed(l, p, 0);
    DialerOutcome(p, l, s);
    SameIffPlain(p, l);
    if k < |p| {
      FalseEcho(l, p[k]);
    }
    if e < |p| {
      FalseEcho(l, p[e]);
      EndsTogether(p, l, s, p[e]);
    }
  }

  /** The first proposal that is echoed is the first one taken exactly if nothing before that misleads. */
  lemma {:induction false} SameIffPlain(p: seq<string>, l: Support)
    ensures FirstEchoed(l, p, 0) == FirstTaken(l, p, 0) <==>
            forall j :: 0 <= j < FirstTaken(l, p, 0) ==> !Misleads(l, p[j])
    ensures FirstEchoed(l, p, 0) <= FirstTaken(l, p, 0)
    ensures FirstEchoed(l, p, 0) < FirstTaken(l, p, 0) ==> !Takes(l, p[FirstEchoed(l, p, 0)])
  {
    hide Takes, Echoed;
    forall j | 0 <= j < |p|
      ensures Echoed(l, p[j]) <==> Takes(l, p[j]) || Misleads(l, p[j])
    {
      FalseEcho(l, p[j]);
    }
  }

  /** Proposals none of which can mislead. */
  predicate Plain(p: seq<string>) {
    "na" !in p && "ls" !in p
  }

  /** So without `na` and `ls` among the proposals the two sides always agree. */
  lemma {:induction false} Agreement(p: seq<string>, l: Support, s: State)
    requires Fits(p, l)
    requires Plain(p)
    requires Reachable(p, l, s)
    requires p != [] && s.dialer.Selected?
    ensures Agreed(p, l, s)
  {
    hide Takes, Agreed, Reachable;
    AgreementIff(p, l, s);
    forall j | 0 <= j < FirstTaken(l, p, 0)
      ensures !Misleads(l, p[j])
    {
      assert p[j] in p;
    }
  }

  lemma {:induction false} NaIsEchoed()
    ensures ReadMessage(Line(CODEC)) == Ok(CODEC) && ReadMessage(Line("na")) == Ok("na")
    ensures Answer(Support([], []), "na") == NA == Line("na") && !Takes(Support([], []), "na")
  {
    DecodeIff(Line(CODEC), CODEC);
    DecodeIff(Line("na"), "na");
  }

  /** An unsupported `na` is taken for an agreement: the dialer ends with it while the listener reads on. */
  lemma {:induction false} FalseAgreement()
    ensures exists s :: Reachable(["na"], Support([], []), s) && s.dialer.Selected? &&
                        s.dialer.outcome == Ok("na") && s.listener == Reading(true)
  {
    hide Line, ReadMessage, Answer, Takes, Reachable;
    var p, l := ["na"], Support([], []);
    NaIsEchoed();
    StartIsReachable(p, l);
    var s1 := ReachStep(p, l, START, DialerMoves);
    var s2 := ReachStep(p, l, s1, DialerMoves);
    var s3 := ReachStep(p, l, s2, ListenerMoves);
    var s4 := ReachStep(p, l, s3, ListenerMoves);
    var s5 := ReachStep(p, l, s4, DialerMoves);
    var s6 := ReachStep(p, l, s5, ListenerMoves);
    var s7 := ReachStep(p, l, s6, ListenerMoves);
    var s8 := ReachStep(p, l, s7, DialerMoves);
  }

  lemma {:induction false} StartIsReachable(p: seq<string>, l: Support)
    ensures Reachable(p, l, START)
  {
    assert Runs(p, l, START, [], START);
  }

  lemma {:induction false} ReachStep(p: seq<string>, l: Support, s: State, e: Event) returns (t: State)
    requires Reachable(p, l, s)
    requires Enabled(p, s, e)
    ensures t == Apply(p, l, s, e) && Reachable(p, l, t)
  {
    t := Apply(p, l, s, e);
    var events :| Runs(p, l, START, events, s);
    RunsMore(p, l, START, events, s, e);
    assert Runs(p, l, START, events + [e], t);
  }

  lemma {:induction false} RunsMore(p: seq<string>, l: Support, s: State, events: seq<Event>, end: State, e: Event)
    requires Runs(p, l, s, events, end)
    requires Enabled(p, end, e)
    ensures Runs(p, l, s, events + [e], Apply(p, l, end, e))
    decreases events
  {
    hide Apply, Enabled;
    if events == [] {
      assert (events + [e])[1..] == [];
    } else {
      assert (events + [e])[1..] == events[1..] + [e];
      RunsMore(p, l, Apply(p, l, s, events[0]), events[1..], end, e);
    }
  }

  /** A dialer that waits has a listener that can move. */
  lemma {:induction false} WaitIsAnswered(p: seq<string>, l: Support, s: State)
    requires Inv(p, l, s)
    requires Reads(s.dialer) && s.toDialer == []
    ensures Enabled(p, s, ListenerMoves)
  {
    hide Takes, Echoed, Script, Replies;
    var read := Sent(p, s.dialer) - |s.toListener|;
    if 2 <= read <= |p| + 1 {
      FalseEcho(l, p[read - 2]);
    }
  }

  /** Until the dialer is done, one of the two sides can move. */
  lemma {:induction false} NeverStuck(p: seq<string>, l: Support, s: State)
    requires Fits(p, l)
    requires Reachable(p, l, s)
    requires !s.dialer.Selected?
    ensures Enabled(p, s, DialerMoves) || Enabled(p, s, ListenerMoves)
  {
    hide Takes, Echoed, Script, Replies, Runs, ListenerInv, NoneEchoed;
    ReachableHolds(p, l, s);
    if Reads(s.dialer) && s.toDialer == [] {
      WaitIsAnswered(p, l, s);
    }
  }

  /** A run with no step left has both sides done. */
  lemma {:induction false} Settles(p: seq<string>, l: Support, s: State)
    requires Fits(p, l)
    requires Reachable(p, l, s)
    requires forall e :: !Enabled(p, s, e)
    ensures s.dialer.Selected? && s.listener.Handled?
  {
    hide Takes, Echoed, Script, Replies, Runs, Inv;
    if !s.dialer.Selected? {
      NeverStuck(p, l, s);
    }
    assert !Enabled(p, s, ListenerMoves) && !Enabled(p, s, Close) && !Enabled(p, s, MeetEnd(true));
  }

  /** The answer to the i-th line of the script is the i-th message on the way back. */
  lemma {:induction false} AnswersInOrder(p: seq<string>, l: Support, s: State, j: nat)
    requires Fits(p, l)
    requires Reachable(p, l, s)
    requires j < |s.toDialer|
    ensures var i := Taken(s.dialer) + j;
            i <= |p| && s.toDialer[j] == if i == 0 then Line(CODEC) else Answer(l, p[i - 1])
  {
    hide Takes, Echoed, Script, Runs;
    ReachableHolds(p, l, s);
    var all := Replies(p, l);
    assert s.toDialer[j] == all[Taken(s.dialer) + j];
  }

  /** How many messages the dialer sends in a run. */
  ghost function Writes(p: seq<string>, l: Support, s: State, events: seq<Event>): nat
    decreases events
  {
    if events == [] || !Enabled(p, s, events[0]) then 0
    else
      (if events[0].DialerMoves? && Sends(p, s.dialer).Some? then 1 else 0) +
      Writes(p, l, Apply(p, l, s, events[0]), events[1..])
  }

  lemma {:induction false} WritesAreSent(p: seq<string>, l: Support, s: State, events: seq<Event>, end: State)
    requires Fits(p, l)
    requires Inv(p, l, s)
    requires Runs(p, l, s, events, end)
    ensures Sent(p, end.dialer) == Sent(p, s.dialer) + Writes(p, l, s, events)
    decreases events
  {
    hide Inv, Sends, Sent, AfterSend, AfterRead, Heard;
    if events != [] {
      var t := Apply(p, l, s, events[0]);
      StepKeeps(p, l, s, events[0]);
      StepSends(p, l, s, events[0]);
      WritesAreSent(p, l, t, events[1..], end);
    }
  }

  lemma {:induction false} StepSends(p: seq<string>, l: Support, s: State, e: Event)
    requires Fits(p, l)
    requires Inv(p, l, s)
    requires Enabled(p, s, e)
    ensures Sent(p, Apply(p, l, s, e).dialer) ==
            Sent(p, s.dialer) + if e.DialerMoves? && Sends(p, s.dialer).Some? then 1 else 0
  {
    hide Takes, Echoed, Script, Replies, Heard, Line, AfterRead;
    if e.DialerMoves? && !Sends(p, s.dialer).Some? {
      AfterReadHolds(p, l, s.dialer);
      assert s.toDialer[0] == Replies(p, l)[Taken(s.dialer)];
    }
  }

  /** The dialer sends at most one message more than it has proposals. */
  lemma {:induction false} WritesBounded(p: seq<string>, l: Support, events: seq<Event>, end: State)
    requires Fits(p, l)
    requires Runs(p, l, START, events, end)
    ensures Writes(p, l, START, events) <= |p| + 1
  {
    hide Takes, Echoed, Script, Replies;
    StartHolds(p, l);
    WritesAreSent(p, l, START, events, end);
    RunKeeps(p, l, START, events, end);
  }

  /** What is left to do. */
  function DialerLeft(p: seq<string>, d: Dialer): int {
    match d
    case SendHeader => 2 * |p| + 2
    case SendFirst => 2 * |p| + 1
    case ReadHeader => if p == [] then 1 else 2 * |p|
    case ReadReply(i) => 2 * (|p| - i) - 1
    case SendNext(i) => 2 * (|p| - i)
    case Selected(_, _) => 0
  }

  function Left(p: seq<string>, s: State): int {
    DialerLeft(p, s.dialer) + 2 * (|p| + 1 - Sent(p, s.dialer) + |s.toListener|) +
    (match s.listener case Writing(_, _) => 2 case Reading(_) => 1 case Handled(_) => 0) +
    if s.closed then 0 else 1
  }

  lemma {:induction false} StepSpends(p: seq<string>, l: Support, s: State, e: Event)
    requires Fits(p, l)
    requires Inv(p, l, s)
    requires Enabled(p, s, e)
    ensures Left(p, Apply(p, l, s, e)) < Left(p, s)
  {
    hide Takes, Echoed, Script, Replies, Line, AfterRead, ReadMessage, Ended, TookLast;
    StepSends(p, l, s, e);
    if e.DialerMoves? && !Sends(p, s.dialer).Some? {
      ReadSpends(p, s.dialer, s.toDialer[0]);
    }
  }

  lemma {:induction false} ReadSpends(p: seq<string>, d: Dialer, data: string)
    requires Reads(d)
    requires d.ReadReply? ==> d.i < |p|
    ensures DialerLeft(p, AfterRead(p, d, data)) < DialerLeft(p, d)
  {
    hide ReadMessage;
  }

  lemma {:induction false} DialerNotNegative(p: seq<string>, l: Support, d: Dialer)
    requires DialerInv(p, l, d)
    ensures DialerLeft(p, d) >= 0
  {
    hide NoneEchoed, Echoed;
  }

  lemma {:induction false} NotNegative(p: seq<string>, l: Support, s: State)
    requires Inv(p, l, s)
    ensures Left(p, s) >= 0
  {
    hide DialerInv, ListenerInv, Script, Replies, Sent, Taken, DialerLeft;
    DialerNotNegative(p, l, s.dialer);
  }

  lemma {:induction false} RunSpends(p: seq<string>, l: Support, s: State, events: seq<Event>, end: State)
    requires Fits(p, l)
    requires Inv(p, l, s)
    requires Runs(p, l, s, events, end)
    ensures |events| <= Left(p, s)
    decreases events
  {
    hide Inv, Left, Apply, Enabled;
    if events == [] {
      NotNegative(p, l, s);
    } else {
      StepKeeps(p, l, s, events[0]);
      StepSpends(p, l, s, events[0]);
      RunSpends(p, l, Apply(p, l, s, events[0]), events[1..], end);
    }
  }

  /** Every negotiation ends. */
  lemma {:induction false} RunsEnd(p: seq<string>, l: Support, events: seq<Event>, end: State)
    requires Fits(p, l)
    requires Runs(p, l, START, events, end)
    ensures |events| <= 4 * |p| + 6
  {
    hide Inv;
    StartHolds(p, l);
    RunSpends(p, l, START, events, end);
  }
}
