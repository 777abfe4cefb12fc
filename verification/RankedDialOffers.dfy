/** What a ranked dial is offered, and that it makes something of it. */
module RankedDialOffers {
  import opened Basics
  import opened DialCandidate
  import opened DialQueue
  import opened RankedDial
  import opened RankedDialSafety
  import opened RankedDialTheorems

  /** The candidates of `cs` under a key none before them has. */
  function NewKeys(cs: seq<Candidate>): seq<Candidate> {
    if cs == [] then []
    else
      var front, last := cs[..|cs| - 1], cs[|cs| - 1];
      if exists i :: 0 <= i < |front| && front[i].key == last.key then NewKeys(front) else NewKeys(front) + [last]
  }

  function AtMost(cs: seq<Candidate>, limit: nat): seq<Candidate> {
    if |cs| <= limit then cs else cs[..limit]
  }

  /** What resolved lookups bring, each answer sorted by rank. */
  function Resolved(events: seq<Event>): seq<Candidate> {
    if events == [] then []
    else (if events[0].Resolve? then SortedByRank(events[0].found) else []) + Resolved(events[1..])
  }

  /** What expanded names bring. */
  function Expanded(events: seq<Event>): seq<Candidate> {
    if events == [] then []
    else (if events[0].Expand? then events[0].found else []) + Expanded(events[1..])
  }

  /** All that is offered to a dial: its direct candidates, then what its lookups resolve to. */
  function Offered(direct: seq<Candidate>, events: seq<Event>): seq<Candidate> {
    SortedByRank(direct) + Resolved(events)
  }

  lemma {:induction false} FreshFront(cs: seq<Candidate>, c: Candidate, seen: set<string>)
    ensures Fresh(cs + [c], seen) ==
            Fresh(cs, seen) + if c.key in seen || c.key in Keys(cs) then [] else [c]
  {
    if cs == [] {
      assert cs + [c] == [c] && [c][1..] == [];
    } else {
      assert (cs + [c])[1..] == cs[1..] + [c];
      assert cs == [cs[0]] + cs[1..];
      KeysCons(cs[0], cs[1..]);
      hide Keys;
      if cs[0].key in seen {
        FreshFront(cs[1..], c, seen);
      } else {
        FreshFront(cs[1..], c, seen + {cs[0].key});
      }
    }
  }

  lemma {:induction false} KeyOf(cs: seq<Candidate>, key: string)
    ensures key in Keys(cs) <==> exists i :: 0 <= i < |cs| && cs[i].key == key
  {
  }

  lemma {:induction false} KeysBoth(a: seq<Candidate>, b: seq<Candidate>)
    ensures Keys(a + b) == Keys(a) + Keys(b)
  {
  }

  /** What a later batch adds is what is fresh after the earlier ones. */
  lemma {:induction false} NewKeysMore(a: seq<Candidate>, b: seq<Candidate>)
    ensures NewKeys(a + b) == NewKeys(a) + Fresh(b, Keys(a))
  {
    if b == [] {
      assert a + b == a;
      NoneFresh(Keys(a));
    } else {
      var front, last := b[..|b| - 1], b[|b| - 1];
      assert (a + b)[..|a + b| - 1] == a + front;
      assert b == front + [last];
      NewKeysMore(a, front);
      FreshFront(front, last, Keys(a));
      KeyOf(a + front, last.key);
      KeysBoth(a, front);
      hide Fresh, Keys;
    }
  }

  /** A budget that has been offered `cs` and has handed out `taken` of `limit`. */
  predicate Accounts(b: Budget, limit: nat, cs: seq<Candidate>, taken: seq<Candidate>) {
    b.seen == Keys(cs) && taken == AtMost(NewKeys(cs), limit) && b.left == limit - |taken|
  }

  lemma {:induction false} TakesNext(b: Budget, limit: nat, cs: seq<Candidate>, taken: seq<Candidate>, more: seq<Candidate>)
    requires Accounts(b, limit, cs, taken)
    ensures Accounts(Spent(b, more), limit, cs + more, taken + Taken(b, more))
  {
    hide Fresh, Keys, NewKeys;
    NewKeysMore(cs, more);
    KeysBoth(cs, more);
    var all := NewKeys(cs) + Fresh(more, Keys(cs));
    assert AtMost(all, limit) == taken + Taken(b, more);
  }

  lemma {:induction false} NothingTaken(limit: nat)
    ensures Accounts(Budget(limit, {}), limit, [], [])
  {
  }

  /** The first candidates offered under new keys, as many as the budget pays for, are what arrives. */
  lemma {:induction false} StepArrives(s: State, e: Event, cs: seq<Candidate>)
    requires Enabled(s, e)
    requires Accounts(s.dialable, MAX_DIAL_CANDIDATES, cs, s.arrived)
    ensures var t := Apply(s, e);
            Accounts(t.dialable, MAX_DIAL_CANDIDATES, cs + if e.Resolve? then SortedByRank(e.found) else [], t.arrived)
  {
    hide Accounts, Spent, Taken, SortedByRank, AllInserted, TakeWinner, OpenSlots;
    assert cs + [] == cs;
    match e
    case Resolve(_, found) =>
      TakesNext(s.dialable, MAX_DIAL_CANDIDATES, cs, s.arrived, SortedByRank(found));
    case Turn =>
      OpenSlotsSame(s.(changed := false, pending := TakeWinner(s.attempts, s.pending, 0).1));
    case _ =>
  }

  lemma {:induction false} RunArrives(s: State, events: seq<Event>, end: State, cs: seq<Candidate>)
    requires Runs(s, events, end)
    requires Accounts(s.dialable, MAX_DIAL_CANDIDATES, cs, s.arrived)
    ensures Accounts(end.dialable, MAX_DIAL_CANDIDATES, cs + Resolved(events), end.arrived)
    decreases events
  {
    hide Accounts, Apply, Enabled, SortedByRank;
    if events == [] {
      assert cs + [] == cs;
    } else {
      StepArrives(s, events[0], cs);
      var batch := if events[0].Resolve? then SortedByRank(events[0].found) else [];
      RunArrives(Apply(s, events[0]), events[1..], end, cs + batch);
      Assoc(cs, batch, Resolved(events[1..]));
    }
  }

  /** In every run, what has been queued is exactly the first 32 candidates offered under new keys. */
  lemma {:induction false} ArrivedIsOffered(
    direct: seq<Candidate>, names: seq<Candidate>, expired: bool, events: seq<Event>, end: State)
    requires Runs(Start(direct, names, expired), events, end)
    ensures end.arrived == AtMost(NewKeys(Offered(direct, events)), MAX_DIAL_CANDIDATES)
  {
    var start := Start(direct, names, expired);
    assert Accounts(start.dialable, MAX_DIAL_CANDIDATES, SortedByRank(direct), start.arrived) by {
      hide Accounts, Spent, Taken, SortedByRank, AllInserted;
      NothingTaken(MAX_DIAL_CANDIDATES);
      TakesNext(Budget(MAX_DIAL_CANDIDATES, {}), MAX_DIAL_CANDIDATES, [], [], SortedByRank(direct));
      assert [] + SortedByRank(direct) == SortedByRank(direct);
    }
    hide Start, Runs, NewKeys, SortedByRank;
    RunArrives(start, events, end, SortedByRank(direct));
  }

  /** What has been opened is, rank by rank, the first of what was offered. */
  lemma {:induction false} OpenedIsOffered(
    direct: seq<Candidate>, names: seq<Candidate>, expired: bool, events: seq<Event>, end: State, r: DialRank)
    requires Runs(Start(direct, names, expired), events, end)
    ensures OfRank(Opened(end.attempts), r) <= OfRank(AtMost(NewKeys(Offered(direct, events)), MAX_DIAL_CANDIDATES), r)
  {
    hide Runs, Start, OfRank;
    assert Reachable(end);
    ArrivedIsOffered(direct, names, expired, events, end);
    FirstComeFirstServed(end, r);
  }

  lemma {:induction false} InItsRank(cs: seq<Candidate>, c: Candidate)
    ensures c in cs <==> c in OfRank(cs, c.rank)
  {
    if cs != [] {
      InItsRank(cs[..|cs| - 1], c);
    }
  }

  lemma {:induction false} KeyIsNew(cs: seq<Candidate>, i: nat)
    requires i < |cs|
    ensures exists j :: 0 <= j < |NewKeys(cs)| && NewKeys(cs)[j].key == cs[i].key
    decreases |cs|, i
  {
    var front, last := cs[..|cs| - 1], cs[|cs| - 1];
    if i < |front| {
      KeyIsNew(front, i);
      var j :| 0 <= j < |NewKeys(front)| && NewKeys(front)[j].key == cs[i].key;
      assert NewKeys(cs)[j] == NewKeys(front)[j];
    } else if k :| 0 <= k < |front| && front[k].key == last.key {
      KeyIsNew(front, k);
      assert NewKeys(cs) == NewKeys(front);
    } else {
      assert NewKeys(cs)[|NewKeys(front)|] == last;
    }
  }

  ghost predicate Attempted(s: State, key: string) {
    exists i :: 0 <= i < |s.attempts| && s.attempts[i].candidate.key == key
  }

  /** With nothing queued, all that arrived was opened. */
  lemma {:induction false} ArrivedWasOpened(s: State, c: Candidate)
    requires QueueInv(s) && s.queued == [] && c in s.arrived
    ensures Attempted(s, c.key) && |s.attempts| == |s.arrived|
  {
    hide OfRank, RankSorted;
    InItsRank(s.arrived, c);
    InItsRank(Opened(s.attempts), c);
    assert OfRank([], c.rank) == [] by {
      OfRankNone([], c.rank);
    }
    var i :| 0 <= i < |s.attempts| && Opened(s.attempts)[i] == c;
  }

  /** Nil without a cancellation means that every key offered was attempted, unless 32 attempts were made or
      the time was up. */
  lemma {:induction false} NilTriedAll(
    direct: seq<Candidate>, names: seq<Candidate>, expired: bool, events: seq<Event>, end: State, i: nat)
    requires Runs(Start(direct, names, expired), events, end)
    requires !end.phase.Racing? && end.phase.winner.None? && !end.phase.cancelled
    requires i < |Offered(direct, events)|
    ensures Attempted(end, Offered(direct, events)[i].key) || |end.attempts| == MAX_DIAL_CANDIDATES || end.expired
  {
    hide Runs, Start, Offered, NewKeys, QueueInv, BudgetInv, PendingInv, MuxerInv, LookupInv, WakeInv, ExitInv, Attempted;
    var all := Offered(direct, events);
    assert Reachable(end);
    NilOnlyAtTheEnd(end);
    ReachableHolds(end);
    ArrivedIsOffered(direct, names, expired, events, end);
    KeyIsNew(all, i);
    var news := NewKeys(all);
    var j :| 0 <= j < |news| && news[j].key == all[i].key;
    if !end.expired {
      var c := if |news| <= MAX_DIAL_CANDIDATES then news[j] else news[0];
      assert c == end.arrived[if |news| <= MAX_DIAL_CANDIDATES then j else 0];
      ArrivedWasOpened(end, c);
    }
  }

  lemma {:induction false} RunKeepsTasks(s: State, events: seq<Event>, end: State)
    requires Runs(s, events, end)
    ensures |end.tasks| == |s.tasks|
    decreases events
  {
    hide Spent, Taken, SortedByRank, AllInserted, TakeWinner, OpenSlots;
    if events != [] {
      if events[0].Turn? {
        OpenSlotsSame(s.(changed := false, pending := TakeWinner(s.attempts, s.pending, 0).1));
      }
      RunKeepsTasks(Apply(s, events[0]), events[1..], end);
    }
  }

  /** One task per distinct name, up to 32. */
  lemma {:induction false} TaskPerName(
    direct: seq<Candidate>, names: seq<Candidate>, expired: bool, events: seq<Event>, end: State)
    requires Runs(Start(direct, names, expired), events, end)
    ensures |end.tasks| == |AtMost(NewKeys(names), MAX_DIAL_CANDIDATES)|
  {
    hide Runs, NewKeys, Fresh, SortedByRank, AllInserted, Spent;
    RunKeepsTasks(Start(direct, names, expired), events, end);
    NothingTaken(MAX_DIAL_CANDIDATES);
    TakesNext(Budget(MAX_DIAL_CANDIDATES, {}), MAX_DIAL_CANDIDATES, [], [], names);
    assert [] + names == names;
  }

  /** The resolutions a run starts. */
  ghost function Launched(s: State, events: seq<Event>): nat
    decreases events
  {
    if events == [] || !Enabled(s, events[0]) then 0
    else
      var t := Apply(s, events[0]);
      (if events[0].Expand? && t.tasks[events[0].task].Resolving? then t.tasks[events[0].task].waiting else 0) +
      Launched(t, events[1..])
  }

  lemma {:induction false} StepLaunches(s: State, e: Event)
    requires Enabled(s, e)
    ensures Apply(s, e).unresolved == if e.Expand? then Spent(s.unresolved, e.found) else s.unresolved
    ensures e.Expand? ==> Apply(s, e).tasks[e.task] == Resolving(|Taken(s.unresolved, e.found)|)
  {
    hide Spent, Taken, SortedByRank, AllInserted, TakeWinner, OpenSlots;
    if e.Turn? {
      OpenSlotsSame(s.(changed := false, pending := TakeWinner(s.attempts, s.pending, 0).1));
    }
  }

  lemma {:induction false} RunLaunches(
    s: State, events: seq<Event>, end: State, cs: seq<Candidate>, taken: seq<Candidate>)
    requires Runs(s, events, end)
    requires Accounts(s.unresolved, MAX_EXPANDED_ADDRESSES, cs, taken)
    ensures |taken| + Launched(s, events) == |AtMost(NewKeys(cs + Expanded(events)), MAX_EXPANDED_ADDRESSES)|
    decreases events
  {
    hide Apply, Enabled, Spent, Taken, NewKeys, Keys;
    if events == [] {
      assert cs + [] == cs;
    } else {
      var e := events[0];
      var found := if e.Expand? then e.found else [];
      StepLaunches(s, e);
      Assoc(cs, found, Expanded(events[1..]));
      assert cs + [] == cs;
      if e.Expand? {
        TakesNext(s.unresolved, MAX_EXPANDED_ADDRESSES, cs, taken, found);
        RunLaunches(Apply(s, e), events[1..], end, cs + found, taken + Taken(s.unresolved, found));
      } else {
        RunLaunches(Apply(s, e), events[1..], end, cs, taken);
      }
    }
  }

  /** Over a run as many resolutions start as expanded addresses under new keys, up to 256. */
  lemma {:induction false} ResolvesExpanded(
    direct: seq<Candidate>, names: seq<Candidate>, expired: bool, events: seq<Event>, end: State)
    requires Runs(Start(direct, names, expired), events, end)
    ensures Launched(Start(direct, names, expired), events) ==
            |AtMost(NewKeys(Expanded(events)), MAX_EXPANDED_ADDRESSES)|
  {
    hide Runs, NewKeys, Launched, Spent, Taken, SortedByRank, AllInserted;
    NothingTaken(MAX_EXPANDED_ADDRESSES);
    RunLaunches(Start(direct, names, expired), events, end, [], []);
    assert [] + Expanded(events) == Expanded(events);
  }
}
