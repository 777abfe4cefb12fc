/** What holds of every run of the ranked dial, whatever the interleaving. */
module RankedDialTheorems {
  import opened Basics
  import opened DialCandidate
  import opened DialQueue
  import opened RankedDial
  import opened RankedDialSafety

  /** When `run` is over, no attempt is running, and every muxer an attempt produced is either the one
      handed back, still open, or a loser's and closed. */
  lemma {:induction false} EveryMuxerAccounted(s: State)
    requires Reachable(s) && s.phase.Ended?
    ensures forall i :: 0 <= i < |s.attempts| ==>
      && !s.attempts[i].status.Running?
      && (s.attempts[i].status.Connected? ==> (s.phase.winner == Some(i) <==> i !in s.closed))
    ensures s.phase.winner.Some? ==>
      s.phase.winner.value < |s.attempts| && s.attempts[s.phase.winner.value].status.Connected?
  {
    hide QueueInv, BudgetInv;
    ReachableHolds(s);
  }

  /** At most 32 attempts start, at most 8 run at once, and no candidate key is attempted twice. */
  lemma {:induction false} AttemptsBounded(s: State)
    requires Reachable(s)
    ensures |s.attempts| <= MAX_DIAL_CANDIDATES
    ensures |set i | 0 <= i < |s.attempts| && s.attempts[i].status.Running?| <= MAX_PARALLEL_DIALS
    ensures forall i, j :: 0 <= i < j < |s.attempts| ==>
      s.attempts[i].candidate.key != s.attempts[j].candidate.key
  {
    ReachableHolds(s);
    var running := set i | 0 <= i < |s.attempts| && s.attempts[i].status.Running?;
    assert running <= Members(s.pending);
    MembersBound(s.pending);
    SubsetSmaller(running, Members(s.pending));
    var all := Opened(s.attempts) + s.queued;
    assert forall i :: 0 <= i < |s.attempts| ==> all[i] == s.attempts[i].candidate;
  }

  function Members(xs: seq<nat>): set<nat> {
    set x | x in xs
  }

  lemma {:induction false} MembersBound(xs: seq<nat>)
    ensures |Members(xs)| <= |xs|
  {
    if xs != [] {
      var n := |xs| - 1;
      assert Members(xs) == Members(xs[..n]) + {xs[n]};
      MembersBound(xs[..n]);
    }
  }

  lemma {:induction false} SubsetSmaller(a: set<nat>, b: set<nat>)
    requires a <= b
    ensures |a| <= |b|
  {
    assert b == a + (b - a);
  }

  /** Whenever the loop opens candidates they are, in order, the best ranks of the queue. */
  lemma {:induction false} OpensBestFirst(s: State)
    requires Reachable(s) && Enabled(s, Turn)
    ensures var t := Apply(s, Turn);
      s.attempts <= t.attempts && RankSorted(Opened(t.attempts[|s.attempts|..]) + t.queued)
  {
    hide QueueInv, BudgetInv, MuxerInv, LookupInv, WakeInv, ExitInv, TakeWinner, OpenSlots, RankSorted, Reachable;
    ReachableHolds(s);
    var (winner, pending) := TakeWinner(s.attempts, s.pending, 0);
    TakeWinnerKeeps(s.attempts, s.pending, 0);
    assert forall j :: 0 <= j < |pending| ==> pending[j] in s.pending;
    var t := s.(changed := false, pending := pending);
    SameQueue(s, t);
    if winner.None? {
      OpenSlotsKeeps(t);
      var u := OpenSlots(t);
      var news := Opened(u.attempts[|s.attempts|..]);
      assert Opened(u.attempts) == Opened(s.attempts) + news;
      Assoc(Opened(s.attempts), news, u.queued);
      SamePrefix(Opened(s.attempts), news + u.queued, s.queued);
    } else {
      assert s.attempts[|s.attempts|..] == [];
      assert Opened([]) + s.queued == s.queued;
    }
    SortedQueue(s);
  }

  lemma {:induction false} SamePrefix(a: seq<Candidate>, x: seq<Candidate>, y: seq<Candidate>)
    requires a + x == a + y
    ensures x == y
  {
    assert x == (a + x)[|a|..] && y == (a + y)[|a|..];
  }

  lemma {:induction false} SortedQueue(s: State)
    requires QueueInv(s)
    ensures RankSorted(s.queued)
  {
  }

  /** Within a rank, what has been opened is what arrived first. */
  lemma {:induction false} FirstComeFirstServed(s: State, r: DialRank)
    requires Reachable(s)
    ensures OfRank(Opened(s.attempts), r) <= OfRank(s.arrived, r)
  {
    hide OfRank;
    ReachableHolds(s);
  }

  /** The dial is work-conserving: with time left, a queued candidate and a free slot, the race it waits
      in is already over. The lookup count is the number of unfinished name tasks. */
  lemma {:induction false} WorkConserving(s: State)
    requires Reachable(s)
    ensures s.lookups == Unfinished(s.tasks) && PendingInRange(s)
    ensures s.phase.Racing? && !s.expired && s.queued != [] && |s.pending| < MAX_PARALLEL_DIALS ==> Woken(s)
  {
    hide QueueInv, BudgetInv;
    ReachableHolds(s);
  }

  /** Nil is handed back only when nothing runs, no lookup is alive, and the queue is empty or the
      deadline has passed. */
  lemma {:induction false} NilOnlyAtTheEnd(s: State)
    requires Reachable(s) && !s.phase.Racing? && s.phase.winner.None? && !s.phase.cancelled
    ensures s.pending == [] && Unfinished(s.tasks) == 0 && (s.queued == [] || s.expired)
    ensures forall i :: 0 <= i < |s.attempts| ==> s.attempts[i].status.Failed?
  {
    hide QueueInv, BudgetInv;
    ReachableHolds(s);
  }

  // --- every run ends

  function AttemptWeight(a: Attempt, i: nat, pending: seq<nat>, closed: set<nat>): nat {
    if a.status.Running? then 2 else if i in pending && i !in closed then 1 else 0
  }

  function AttemptsWeight(attempts: seq<Attempt>, pending: seq<nat>, closed: set<nat>): nat {
    if attempts == [] then 0
    else
      var n := |attempts| - 1;
      AttemptsWeight(attempts[..n], pending, closed) + AttemptWeight(attempts[n], n, pending, closed)
  }

  function TaskWeight(t: Task): nat {
    match t
    case Expanding => 3
    case Resolving(n) => 2 * n + 2
    case Done => 0
  }

  function TasksWeight(tasks: seq<Task>): nat {
    if tasks == [] then 0 else TasksWeight(tasks[..|tasks| - 1]) + TaskWeight(tasks[|tasks| - 1])
  }

  function PhaseWeight(p: Phase): nat {
    match p
    case Racing => 2
    case Dropping(_, _) => 1
    case Ended(_, _) => 0
  }

  /** What a run still has to spend. */
  function Weight(s: State): nat {
    4 * s.dialable.left + 4 * |s.queued| + 2 * s.unresolved.left + TasksWeight(s.tasks)
    + AttemptsWeight(s.attempts, s.pending, s.closed)
    + (if s.changed then 1 else 0) + (if s.expired then 0 else 1) + PhaseWeight(s.phase)
  }

  lemma {:induction false} TasksUpdate(tasks: seq<Task>, t: nat, task: Task)
    requires t < |tasks|
    ensures TasksWeight(tasks[t := task]) == TasksWeight(tasks) - TaskWeight(tasks[t]) + TaskWeight(task)
  {
    var n := |tasks| - 1;
    if t == n {
      assert tasks[t := task][..n] == tasks[..n];
    } else {
      assert tasks[t := task][..n] == tasks[..n][t := task];
      TasksUpdate(tasks[..n], t, task);
    }
  }

  /** Lighter attempts weigh less, and strictly less if one of them is strictly lighter. */
  lemma {:induction false} LighterAttempts(
      a: seq<Attempt>, b: seq<Attempt>, p: seq<nat>, q: seq<nat>, c: set<nat>, d: set<nat>)
    requires |a| == |b|
    requires forall i :: 0 <= i < |a| ==> AttemptWeight(b[i], i, q, d) <= AttemptWeight(a[i], i, p, c)
    ensures AttemptsWeight(b, q, d) <= AttemptsWeight(a, p, c)
    ensures (exists i :: 0 <= i < |a| && AttemptWeight(b[i], i, q, d) < AttemptWeight(a[i], i, p, c)) ==>
      AttemptsWeight(b, q, d) < AttemptsWeight(a, p, c)
  {
    if |a| > 0 {
      var n := |a| - 1;
      LighterAttempts(a[..n], b[..n], p, q, c, d);
      if i :| 0 <= i < |a| && AttemptWeight(b[i], i, q, d) < AttemptWeight(a[i], i, p, c) {
        if i < n {
          assert AttemptWeight(b[..n][i], i, q, d) < AttemptWeight(a[..n][i], i, p, c);
        }
      }
    }
  }

  /** Opening a slot trades a queued candidate for a running attempt. */
  lemma {:induction false} OpenSlotsWeight(s: State)
    requires PendingInRange(s) && forall i :: i in s.closed ==> i < |s.attempts|
    ensures var t := OpenSlots(s);
      4 * |t.queued| + AttemptsWeight(t.attempts, t.pending, t.closed)
        <= 4 * |s.queued| + AttemptsWeight(s.attempts, s.pending, s.closed)
    decreases |s.queued|
  {
    if !(s.expired || s.queued == [] || |s.pending| >= MAX_PARALLEL_DIALS) {
      var t := s.(queued := s.queued[1..],
                  attempts := s.attempts + [Attempt(s.queued[0], Running)],
                  pending := s.pending + [|s.attempts|]);
      assert t.attempts[..|t.attempts| - 1] == s.attempts;
      LighterAttempts(s.attempts, s.attempts, s.pending, t.pending, s.closed, s.closed);
      OpenSlotsWeight(t);
    }
  }

  /** The scan for a winner takes weight off, and some if an attempt has ended. */
  lemma {:induction false} ScanSpends(s: State)
    requires Inv(s)
    ensures var (winner, pending) := TakeWinner(s.attempts, s.pending, 0);
      && (forall j :: 0 <= j < |pending| ==> pending[j] in s.pending)
      && AttemptsWeight(s.attempts, pending, s.closed) <= AttemptsWeight(s.attempts, s.pending, s.closed)
      && (winner.None? && (exists p :: p in s.pending && !s.attempts[p].status.Running?) ==>
            AttemptsWeight(s.attempts, pending, s.closed) < AttemptsWeight(s.attempts, s.pending, s.closed))
  {
    hide QueueInv, BudgetInv, LookupInv, WakeInv, ExitInv, TakeWinner, AttemptsWeight;
    var (winner, pending) := TakeWinner(s.attempts, s.pending, 0);
    TakeWinnerKeeps(s.attempts, s.pending, 0);
    assert forall j :: 0 <= j < |pending| ==> pending[j] in s.pending;
    LighterAttempts(s.attempts, s.attempts, s.pending, pending, s.closed, s.closed);
    if winner.None? && exists p :: p in s.pending && !s.attempts[p].status.Running? {
      var p :| p in s.pending && !s.attempts[p].status.Running?;
      assert AttemptWeight(s.attempts[p], p, pending, s.closed) < AttemptWeight(s.attempts[p], p, s.pending, s.closed);
    }
  }

  lemma {:induction false} TurnSpends(s: State)
    requires Inv(s) && Enabled(s, Turn)
    ensures Weight(Iterate(s)) < Weight(s)
  {
    hide QueueInv, BudgetInv, LookupInv, WakeInv, ExitInv, TakeWinner, OpenSlots, AttemptsWeight, TasksWeight;
    var (winner, pending) := TakeWinner(s.attempts, s.pending, 0);
    var t := s.(changed := false, pending := pending);
    ScanSpends(s);
    if winner.None? {
      OpenSlotsWeight(t);
      OpenSlotsSame(t);
    }
  }

  /** Opening slots changes nothing but the queue, the attempts and the pending list. */
  lemma {:induction false} OpenSlotsSame(s: State)
    ensures var t := OpenSlots(s);
      t == s.(queued := t.queued, attempts := t.attempts, pending := t.pending)
    decreases |s.queued|
  {
    if !(s.expired || s.queued == [] || |s.pending| >= MAX_PARALLEL_DIALS) {
      OpenSlotsSame(s.(queued := s.queued[1..],
                       attempts := s.attempts + [Attempt(s.queued[0], Running)],
                       pending := s.pending + [|s.attempts|]));
    }
  }

  lemma {:induction false} TaskSpends(s: State, e: Event)
    requires Inv(s) && Enabled(s, e) && (e.Expand? || e.Resolve? || e.EndTask? || e.CancelTask?)
    ensures Weight(Apply(s, e)) < Weight(s)
  {
    hide Inv, Spent, Taken, SortedByRank, AllInserted, AttemptsWeight, TasksWeight;
    match e
    case Expand(t, found) =>
      TakenOnce(s.unresolved, found);
      TasksUpdate(s.tasks, t, Resolving(|Taken(s.unresolved, found)|));
    case Resolve(t, found) =>
      var ranked := SortedByRank(found);
      TakenOnce(s.dialable, ranked);
      TasksUpdate(s.tasks, t, Resolving(s.tasks[t].waiting - 1));
      QueueGrows(s, Taken(s.dialable, ranked));
    case EndTask(t) => TasksUpdate(s.tasks, t, Done);
    case CancelTask(t) => TasksUpdate(s.tasks, t, Done);
  }

  lemma {:induction false} QueueGrows(s: State, cs: seq<Candidate>)
    requires Inv(s)
    ensures |AllInserted(s.queued, cs)| == |s.queued| + |cs|
  {
    AllInsertedIsStable(s.queued, cs);
  }

  lemma {:induction false} OtherSpends(s: State, e: Event)
    requires Inv(s) && Enabled(s, e) && (e.Finish? || e.Tick? || e.Cancel? || e.Close? || e.Leave?)
    ensures Weight(Apply(s, e)) < Weight(s)
  {
    hide QueueInv, BudgetInv, AttemptsWeight, TasksWeight;
    var t := Apply(s, e);
    LighterAttempts(s.attempts, t.attempts, s.pending, t.pending, s.closed, t.closed);
    if e.Finish? || e.Close? {
      var i := e.attempt;
      assert AttemptWeight(t.attempts[i], i, t.pending, t.closed) < AttemptWeight(s.attempts[i], i, s.pending, s.closed);
    }
  }

  lemma {:induction false} StepSpends(s: State, e: Event)
    requires Inv(s) && Enabled(s, e)
    ensures Weight(Apply(s, e)) < Weight(s)
  {
    hide Inv, Weight;
    match e
    case Turn => TurnSpends(s);
    case Expand(_, _) => TaskSpends(s, e);
    case Resolve(_, _) => TaskSpends(s, e);
    case EndTask(_) => TaskSpends(s, e);
    case CancelTask(_) => TaskSpends(s, e);
    case _ => OtherSpends(s, e);
  }

  lemma {:induction false} RunSpends(s: State, events: seq<Event>, end: State)
    requires Inv(s) && Runs(s, events, end)
    ensures |events| + Weight(end) <= Weight(s)
    decreases events
  {
    hide Inv, Apply, Weight, Enabled;
    if events != [] {
      StepSpends(s, events[0]);
      StepKeeps(s, events[0]);
      RunSpends(Apply(s, events[0]), events[1..], end);
    }
  }

  lemma {:induction false} StartWeight(direct: seq<Candidate>, names: seq<Candidate>, expired: bool)
    ensures Weight(Start(direct, names, expired)) <= 740
  {
    var budget := Budget(MAX_DIAL_CANDIDATES, {});
    var ranked := SortedByRank(direct);
    TakenOnce(budget, names);
    TakenOnce(budget, ranked);
    AllInsertedIsStable([], Taken(budget, ranked));
    ExpandingWeight(seq(|Taken(budget, names)|, _ => Expanding));
    hide Taken, Spent, AllInserted, SortedByRank, TasksWeight;
  }

  lemma {:induction false} ExpandingWeight(tasks: seq<Task>)
    requires forall t :: 0 <= t < |tasks| ==> tasks[t].Expanding?
    ensures TasksWeight(tasks) == 3 * |tasks|
  {
    if tasks != [] {
      ExpandingWeight(tasks[..|tasks| - 1]);
    }
  }

  /** No run takes more than 740 steps, whatever lookups return and whenever attempts end. */
  lemma {:induction false} RunsEnd(
      direct: seq<Candidate>, names: seq<Candidate>, expired: bool, events: seq<Event>, end: State)
    requires Runs(Start(direct, names, expired), events, end)
    ensures |events| <= 740
  {
    hide Runs, Start, Weight, Inv;
    StartHolds(direct, names, expired);
    StartWeight(direct, names, expired);
    RunSpends(Start(direct, names, expired), events, end);
  }

  predicate Over(s: State) {
    s.phase.Ended? && forall t :: 0 <= t < |s.tasks| ==> s.tasks[t].Done?
  }

  lemma {:induction false} SomeUnfinished(tasks: seq<Task>)
    requires Unfinished(tasks) > 0
    ensures exists t :: 0 <= t < |tasks| && !tasks[t].Done?
  {
    var n := |tasks| - 1;
    if tasks[n].Done? {
      SomeUnfinished(tasks[..n]);
    }
  }

  /** Nothing gets stuck: until the dial is over, some step other than the clock or a cancellation can
      happen. */
  lemma {:induction false} NeverStuck(s: State) returns (e: Event)
    requires Reachable(s) && !Over(s)
    ensures Enabled(s, e) && !e.Tick? && !e.Cancel?
  {
    hide QueueInv, BudgetInv, ExitInv, Reachable;
    ReachableHolds(s);
    var first := if s.pending == [] then 0 else s.pending[0];
    assert s.pending != [] ==> first in s.pending;
    if p :| p in s.pending && s.attempts[p].status.Running? && !s.phase.Ended? {
      e := Finish(p, Failed);
    } else if s.phase.Racing? && Woken(s) {
      e := Turn;
    } else if s.phase.Dropping? {
      if p :| p in s.pending && s.attempts[p].status.Connected? && p !in s.closed {
        e := Close(p);
      } else {
        e := Leave;
      }
    } else {
      if s.phase.Racing? {
        SomeUnfinished(s.tasks);
      }
      var t :| 0 <= t < |s.tasks| && !s.tasks[t].Done?;
      e := if s.phase.Ended? then CancelTask(t)
      else match s.tasks[t]
        case Expanding => Expand(t, [])
        case Resolving(n) => if n > 0 then Resolve(t, []) else EndTask(t)
        case Done => Turn;
    }
  }
}
