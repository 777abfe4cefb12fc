/** What every step of the ranked dial keeps. */
module RankedDialSafety {
  import opened Basics
  import opened DialQueue
  import opened RankedDial

  /** The queue is sorted by rank, and within each rank candidates leave it in the order they came. */
  ghost predicate QueueInv(s: State) {
    && RankSorted(s.queued)
    && |s.arrived| == |s.attempts| + |s.queued|
    && forall r :: OfRank(s.arrived, r) == OfRank(Opened(s.attempts), r) + OfRank(s.queued, r)
  }

  /** No key is queued or opened twice, and queued candidates are paid for. */
  ghost predicate BudgetInv(s: State) {
    && DistinctKeys(Opened(s.attempts) + s.queued)
    && Keys(Opened(s.attempts) + s.queued) <= s.dialable.seen
    && |s.attempts| + |s.queued| + s.dialable.left == MAX_DIAL_CANDIDATES
  }

  predicate PendingInv(s: State) {
    Distinct(s.pending) && PendingInRange(s) && |s.pending| <= MAX_PARALLEL_DIALS
  }

  function Winner(p: Phase): Option<nat> {
    if p.Racing? then None else p.winner
  }

  /** Every attempt is pending, or ended without a muxer, or won; only losers are closed. */
  ghost predicate MuxerInv(s: State) {
    && (forall i :: 0 <= i < |s.attempts| ==>
          i in s.pending || s.attempts[i].status.Failed? || Winner(s.phase) == Some(i))
    && (forall w :: Winner(s.phase) == Some(w) ==>
          w < |s.attempts| && s.attempts[w].status.Connected? && w !in s.pending)
    && (forall i :: i in s.closed ==> i in s.pending && i < |s.attempts| && s.attempts[i].status.Connected?)
    && (s.phase.Racing? ==> s.closed == {})
    && (s.phase.Ended? && PendingInRange(s) ==>
          forall p :: p in s.pending ==>
            !s.attempts[p].status.Running? && (s.attempts[p].status.Connected? ==> p in s.closed))
  }

  predicate LookupInv(s: State) {
    s.lookups == Unfinished(s.tasks)
  }

  /** While the dial waits in the race: a queued candidate and a free slot mean a wake-up is on its way,
      unless the time is up; and with nothing to wait for there is one too. */
  predicate WakeInv(s: State) {
    s.phase.Racing? ==>
      && (s.changed || s.expired || s.queued == [] || |s.pending| == MAX_PARALLEL_DIALS)
      && (s.changed || s.pending != [] || s.lookups > 0)
  }

  /** Nil comes back only when nothing runs, no lookup is alive, and nothing waits or the time is up. */
  predicate ExitInv(s: State) {
    !s.phase.Racing? && s.phase.winner.None? && !s.phase.cancelled ==>
      s.pending == [] && s.lookups == 0 && (s.queued == [] || s.expired)
  }

  ghost predicate Inv(s: State) {
    QueueInv(s) && BudgetInv(s) && PendingInv(s) && MuxerInv(s) && LookupInv(s) && WakeInv(s) && ExitInv(s)
  }

  // --- queueing

  lemma {:induction false} InsertDistinct(o: seq<Candidate>, q: seq<Candidate>, c: Candidate)
    requires DistinctKeys(o + q) && c.key !in Keys(o + q)
    ensures DistinctKeys(o + Inserted(q, c)) && Keys(o + Inserted(q, c)) == Keys(o + q) + {c.key}
  {
    var k := UpperBound(q, c);
    var a, b := o + q[..k], q[k..];
    assert o + q == a + b;
    assert o + Inserted(q, c) == a + [c] + b;
    Squeeze(a, b, c);
  }

  lemma {:induction false} Squeeze(a: seq<Candidate>, b: seq<Candidate>, c: Candidate)
    requires DistinctKeys(a + b) && c.key !in Keys(a + b)
    ensures DistinctKeys(a + [c] + b) && Keys(a + [c] + b) == Keys(a + b) + {c.key}
  {
    var x, y := a + b, a + [c] + b;
    assert forall i :: 0 <= i < |x| ==> x[i].key in Keys(x);
    assert forall i :: 0 <= i < |y| ==> y[i] == if i < |a| then x[i] else if i == |a| then c else x[i - 1];
    assert forall i :: 0 <= i < |x| ==> x[i] == if i < |a| then y[i] else y[i + 1];
    assert y[|a|] == c;
    forall i, j | 0 <= i < j < |y| ensures y[i].key != y[j].key {
      var ni, nj := if i < |a| then i else i - 1, if j < |a| then j else j - 1;
      assert i != |a| ==> y[i] == x[ni];
      assert j != |a| ==> y[j] == x[nj];
    }
  }

  lemma {:induction false} InsertAllDistinct(o: seq<Candidate>, q: seq<Candidate>, cs: seq<Candidate>)
    requires DistinctKeys(o + q) && DistinctKeys(cs) && Keys(cs) !! Keys(o + q)
    ensures DistinctKeys(o + AllInserted(q, cs)) && Keys(o + AllInserted(q, cs)) == Keys(o + q) + Keys(cs)
  {
    if cs == [] {
      assert Keys(cs) == {};
    } else {
      var n := |cs| - 1;
      var head, last := cs[..n], cs[n];
      assert Keys(cs) == Keys(head) + {last.key} by {
        assert forall c :: c in cs <==> c in head || c == last;
      }
      assert last.key !in Keys(head) by { LastIsNew(cs); }
      InsertAllDistinct(o, q, head);
      InsertDistinct(o, AllInserted(q, head), last);
    }
  }

  lemma {:induction false} LastIsNew(cs: seq<Candidate>)
    requires cs != [] && DistinctKeys(cs)
    ensures cs[|cs| - 1].key !in Keys(cs[..|cs| - 1])
  {
  }

  lemma {:induction false} EnqueueKeeps(s: State, cs: seq<Candidate>)
    requires QueueInv(s) && BudgetInv(s)
    ensures QueueInv(Enqueue(s, cs)) && BudgetInv(Enqueue(s, cs))
  {
    var ranked := SortedByRank(cs);
    var taken := Taken(s.dialable, ranked);
    var o := Opened(s.attempts);
    TakenOnce(s.dialable, ranked);
    AllInsertedIsStable(s.queued, taken);
    hide Taken, Keys, DistinctKeys, AllInserted, SortedByRank, OfRank, RankSorted;
    InsertAllDistinct(o, s.queued, taken);
    forall r
      ensures OfRank(s.arrived + taken, r) == OfRank(o, r) + OfRank(AllInserted(s.queued, taken), r)
    {
      OfRankAppend(s.arrived, taken, r);
      Assoc(OfRank(o, r), OfRank(s.queued, r), OfRank(taken, r));
    }
  }

  // --- the turn of the loop

  /** `takeWinner` never discards a connected attempt: what leaves the list failed or is the one handed
      over, and it stops early only for a winner. */
  lemma {:induction false} TakeWinnerKeeps(attempts: seq<Attempt>, pending: seq<nat>, i: nat)
    requires Distinct(pending) && i <= |pending|
    requires forall j :: 0 <= j < |pending| ==> pending[j] < |attempts|
    requires forall j :: 0 <= j < i ==> attempts[pending[j]].status.Running?
    ensures var (w, rest) := TakeWinner(attempts, pending, i);
      && Distinct(rest) && |rest| <= |pending|
      && (forall p :: p in rest ==> p in pending && Some(p) != w)
      && (forall p :: p in pending && p !in rest ==> attempts[p].status.Failed? || w == Some(p))
      && (w.Some? ==> w.value in pending && attempts[w.value].status.Connected?)
      && (w.None? ==> forall p :: p in rest ==> attempts[p].status.Running?)
    decreases |pending| - i
  {
    if i < |pending| {
      if attempts[pending[i]].status.Running? {
        TakeWinnerKeeps(attempts, pending, i + 1);
      } else {
        DeleteKeeps(pending, i);
        if attempts[pending[i]].status.Failed? {
          TakeWinnerKeeps(attempts, SwapDelete(pending, i), i);
        }
      }
    }
  }

  lemma {:induction false} DeleteKeeps(pending: seq<nat>, i: nat)
    requires Distinct(pending) && i < |pending|
    ensures Distinct(SwapDelete(pending, i))
    ensures forall p :: p in SwapDelete(pending, i) <==> p in pending && p != pending[i]
  {
    var d := SwapDelete(pending, i);
    forall p | p in pending && p != pending[i] ensures p in d {
      var j :| 0 <= j < |pending| && pending[j] == p;
      assert p == if j == |pending| - 1 then d[i] else d[j];
    }
  }

  /** Opening slots moves candidates from the front of the queue to the back of the attempts. */
  lemma {:induction false} OpenSlotsKeeps(s: State)
    requires QueueInv(s) && BudgetInv(s) && PendingInv(s)
    ensures var t := OpenSlots(s);
      && QueueInv(t) && BudgetInv(t) && PendingInv(t)
      && t == s.(queued := t.queued, attempts := t.attempts, pending := t.pending)
      && s.attempts <= t.attempts && s.pending <= t.pending
      && (forall i :: |s.attempts| <= i < |t.attempts| ==> t.attempts[i].status.Running? && i in t.pending)
      && (t.expired || t.queued == [] || |t.pending| == MAX_PARALLEL_DIALS)
      && Opened(t.attempts) + t.queued == Opened(s.attempts) + s.queued
    decreases |s.queued|
  {
    if !(s.expired || s.queued == [] || |s.pending| >= MAX_PARALLEL_DIALS) {
      var t := s.(queued := s.queued[1..],
                  attempts := s.attempts + [Attempt(s.queued[0], Running)],
                  pending := s.pending + [|s.attempts|]);
      OpenOne(s, t);
      OpenSlotsKeeps(t);
      assert t.pending[|s.pending|] == |s.attempts|;
    }
  }

  lemma {:induction false} OpenOne(s: State, t: State)
    requires QueueInv(s) && BudgetInv(s) && PendingInv(s)
    requires s.queued != [] && |s.pending| < MAX_PARALLEL_DIALS
    requires t == s.(queued := s.queued[1..],
                     attempts := s.attempts + [Attempt(s.queued[0], Running)],
                     pending := s.pending + [|s.attempts|])
    ensures QueueInv(t) && BudgetInv(t) && PendingInv(t)
    ensures Opened(t.attempts) + t.queued == Opened(s.attempts) + s.queued
  {
    var o, c, q := Opened(s.attempts), s.queued[0], s.queued[1..];
    assert Opened(t.attempts) == o + [c];
    assert s.queued == [c] + q;
    Assoc(o, [c], q);
    hide OfRank;
    forall r ensures OfRank(s.arrived, r) == OfRank(o + [c], r) + OfRank(q, r) {
      OfRankAppend(o, [c], r);
      OfRankAppend([c], q, r);
      Assoc(OfRank(o, r), OfRank([c], r), OfRank(q, r));
    }
  }

  /** A turn that finds no winner: what is left runs, and slots open behind it. */
  lemma {:induction false} IdleTurnKeeps(s: State, pending: seq<nat>)
    requires Inv(s) && s.phase.Racing?
    requires PendingInv(s.(pending := pending))
    requires forall p :: p in pending ==> p in s.pending
    requires forall p :: p in s.pending && p !in pending ==> p < |s.attempts| && s.attempts[p].status.Failed?
    ensures var u := OpenSlots(s.(changed := false, pending := pending));
      Inv(if u.pending == [] && u.lookups == 0 then u.(phase := Dropping(None, false)) else u)
  {
    hide QueueInv, BudgetInv, OpenSlots;
    var t := s.(changed := false, pending := pending);
    SameQueue(s, t);
    OpenSlotsKeeps(t);
    var u := OpenSlots(t);
    SameQueue(u, u.(phase := Dropping(None, false)));
    assert forall i :: 0 <= i < |s.attempts| ==> u.attempts[i] == s.attempts[i];
    assert forall p :: p in pending ==> p in u.pending;
  }

  lemma {:induction false} TurnKeeps(s: State)
    requires Inv(s) && Enabled(s, Turn)
    ensures Inv(Iterate(s))
  {
    hide QueueInv, BudgetInv, TakeWinner, OpenSlots;
    var (winner, pending) := TakeWinner(s.attempts, s.pending, 0);
    TakeWinnerKeeps(s.attempts, s.pending, 0);
    assert forall j :: 0 <= j < |pending| ==> pending[j] in s.pending;
    if winner.None? {
      IdleTurnKeeps(s, pending);
    } else {
      SameQueue(s, s.(changed := false, pending := pending, phase := Dropping(winner, false)));
    }
  }

  /** The queue and budget invariants look at those fields only. */
  lemma {:induction false} SameQueue(s: State, t: State)
    requires t.queued == s.queued && t.arrived == s.arrived && t.dialable == s.dialable
    requires Opened(t.attempts) == Opened(s.attempts)
    ensures QueueInv(s) ==> QueueInv(t)
    ensures BudgetInv(s) ==> BudgetInv(t)
  {
    hide OfRank, Keys, DistinctKeys, RankSorted;
  }

  lemma {:induction false} SameAttempts(s: State, t: State)
    requires t.attempts == s.attempts && t.pending == s.pending && t.phase == s.phase && t.closed == s.closed
    ensures MuxerInv(s) ==> MuxerInv(t)
    ensures PendingInv(s) ==> PendingInv(t)
  {
  }

  lemma {:induction false} UnfinishedUpdate(tasks: seq<Task>, t: nat, task: Task)
    requires t < |tasks|
    ensures Unfinished(tasks[t := task])
      == Unfinished(tasks) - (if tasks[t].Done? then 0 else 1) + (if task.Done? then 0 else 1)
  {
    var n := |tasks| - 1;
    if t == n {
      assert tasks[t := task][..n] == tasks[..n];
    } else {
      assert tasks[t := task][..n] == tasks[..n][t := task];
      UnfinishedUpdate(tasks[..n], t, task);
    }
  }

  lemma {:induction false} TaskKeeps(s: State, e: Event)
    requires Inv(s) && Enabled(s, e) && (e.Expand? || e.Resolve? || e.EndTask? || e.CancelTask?)
    ensures Inv(Apply(s, e))
  {
    hide QueueInv, BudgetInv, MuxerInv, PendingInv, Spent, Taken, SortedByRank, AllInserted;
    var t := Apply(s, e);
    SameAttempts(s, t);
    UnfinishedUpdate(s.tasks, e.task, t.tasks[e.task]);
    UnfinishedUpdate(s.tasks, e.task, Done);
    if e.Resolve? {
      var u := s.(tasks := t.tasks);
      assert t.tasks == s.tasks[e.task := Resolving(s.tasks[e.task].waiting - 1)];
      SameQueue(s, u);
      EnqueueKeeps(u, e.found);
    } else {
      SameQueue(s, t);
    }
  }

  lemma {:induction false} OtherKeeps(s: State, e: Event)
    requires Inv(s) && Enabled(s, e) && (e.Finish? || e.Tick? || e.Cancel? || e.Close? || e.Leave?)
    ensures Inv(Apply(s, e))
  {
    hide QueueInv, BudgetInv;
    var t := Apply(s, e);
    assert Opened(t.attempts) == Opened(s.attempts);
    SameQueue(s, t);
  }

  /** Every step keeps the invariant. */
  lemma {:induction false} StepKeeps(s: State, e: Event)
    requires Inv(s) && Enabled(s, e)
    ensures Inv(Apply(s, e))
  {
    hide Inv;
    match e
    case Turn => TurnKeeps(s);
    case Expand(_, _) => TaskKeeps(s, e);
    case Resolve(_, _) => TaskKeeps(s, e);
    case EndTask(_) => TaskKeeps(s, e);
    case CancelTask(_) => TaskKeeps(s, e);
    case _ => OtherKeeps(s, e);
  }

  /** The machine before anything is queued. */
  lemma {:induction false} EmptyHolds(s: State)
    requires s.attempts == [] && s.queued == [] && s.arrived == [] && s.pending == [] && s.closed == {}
    requires s.dialable == Budget(MAX_DIAL_CANDIDATES, {}) && s.phase.Racing?
    ensures QueueInv(s) && BudgetInv(s) && PendingInv(s) && MuxerInv(s)
  {
    assert Opened([]) == [] && Opened([]) + [] == [];
    assert forall r :: OfRank([], r) == [];
    assert Keys([]) == {};
  }

  lemma {:induction false} StartHolds(direct: seq<Candidate>, names: seq<Candidate>, expired: bool)
    ensures Inv(Start(direct, names, expired))
  {
    hide Taken, Spent, AllInserted, SortedByRank, QueueInv, BudgetInv;
    var named := Taken(Budget(MAX_DIAL_CANDIDATES, {}), names);
    var tasks := seq(|named|, _ => Expanding);
    var empty := State(
      Budget(MAX_DIAL_CANDIDATES, {}), Budget(MAX_EXPANDED_ADDRESSES, {}), [], [], |named|, false, [],
      tasks, Racing, expired, {}, []);
    AllUnfinished(tasks);
    EmptyHolds(empty);
    EnqueueKeeps(empty, direct);
  }

  lemma {:induction false} AllUnfinished(tasks: seq<Task>)
    requires forall t :: 0 <= t < |tasks| ==> !tasks[t].Done?
    ensures Unfinished(tasks) == |tasks|
  {
    if tasks != [] {
      AllUnfinished(tasks[..|tasks| - 1]);
    }
  }

  /** The invariant holds wherever a run can get. */
  lemma {:induction false} RunKeeps(s: State, events: seq<Event>, end: State)
    requires Inv(s) && Runs(s, events, end)
    ensures Inv(end)
    decreases events
  {
    hide Inv, Apply;
    if events != [] {
      StepKeeps(s, events[0]);
      RunKeeps(Apply(s, events[0]), events[1..], end);
    }
  }

  /** A reachable state. */
  ghost predicate Reachable(s: State) {
    exists direct, names, expired, events :: Runs(Start(direct, names, expired), events, s)
  }

  lemma {:induction false} ReachableHolds(s: State)
    requires Reachable(s)
    ensures Inv(s)
  {
    hide Inv, Runs, Start;
    var direct, names, expired, events :| Runs(Start(direct, names, expired), events, s);
    StartHolds(direct, names, expired);
    RunKeeps(Start(direct, names, expired), events, s);
  }
}
