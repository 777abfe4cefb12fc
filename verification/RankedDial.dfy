/** The scheduler of `libp2p/rankeddial.nim` as a machine of atomic steps: one per stretch of code between
    two awaits, plus the moves of the world around it. */
module RankedDial {
  import opened Basics
  import opened DialQueue

  const MAX_DIAL_CANDIDATES := 32
  const MAX_PARALLEL_DIALS := 8
  const MAX_EXPANDED_ADDRESSES := MAX_DIAL_CANDIDATES * 8

  /** An attempt future. A failed one ended with an error, with nil or cancelled. A connected one holds a
      muxer, which is named by the attempt that produced it. */
  datatype Status = Running | Failed | Connected

  datatype Attempt = Attempt(candidate: Candidate, status: Status)

  /** A `queueName` future: waiting for the expansion, for that many resolutions, or done. */
  datatype Task = Expanding | Resolving(waiting: nat) | Done

  /** Where `run` stands: in the race, in `dropLosers`, or past it. */
  datatype Phase =
    | Racing
    | Dropping(winner: Option<nat>, cancelled: bool)
    | Ended(winner: Option<nat>, cancelled: bool)

  /** `attempts` lists every attempt ever opened, in order; `arrived` every candidate ever queued. */
  datatype State = State(
    dialable: Budget,
    unresolved: Budget,
    queued: seq<Candidate>,
    pending: seq<nat>,
    lookups: int,
    changed: bool,
    attempts: seq<Attempt>,
    tasks: seq<Task>,
    phase: Phase,
    expired: bool,
    closed: set<nat>,
    arrived: seq<Candidate>)

  /** `queue`. */
  function Enqueue(s: State, cs: seq<Candidate>): State {
    var ranked := SortedByRank(cs);
    var taken := Taken(s.dialable, ranked);
    s.(dialable := Spent(s.dialable, ranked),
       queued := AllInserted(s.queued, taken),
       arrived := s.arrived + taken,
       changed := true)
  }

  /** `takeWinner` from position `i` on: who won, and what is still pending. */
  function TakeWinner(attempts: seq<Attempt>, pending: seq<nat>, i: nat): (r: (Option<nat>, seq<nat>))
    requires forall j :: 0 <= j < |pending| ==> pending[j] < |attempts|
    decreases |pending| - i
  {
    if i >= |pending| then (None, pending)
    else if attempts[pending[i]].status.Running? then TakeWinner(attempts, pending, i + 1)
    else if attempts[pending[i]].status.Connected? then (Some(pending[i]), SwapDelete(pending, i))
    else TakeWinner(attempts, SwapDelete(pending, i), i)
  }

  /** `openSlots`. */
  function OpenSlots(s: State): State
    decreases |s.queued|
  {
    if s.expired || s.queued == [] || |s.pending| >= MAX_PARALLEL_DIALS then s
    else
      OpenSlots(s.(queued := s.queued[1..],
                   attempts := s.attempts + [Attempt(s.queued[0], Running)],
                   pending := s.pending + [|s.attempts|]))
  }

  predicate PendingInRange(s: State) {
    forall j :: 0 <= j < |s.pending| ==> s.pending[j] < |s.attempts|
  }

  /** One turn of the loop in `firstConnected`. */
  function Iterate(s: State): State
    requires PendingInRange(s)
  {
    var (winner, pending) := TakeWinner(s.attempts, s.pending, 0);
    var t := s.(changed := false, pending := pending);
    if winner.Some? then t.(phase := Dropping(winner, false))
    else
      var u := OpenSlots(t);
      if u.pending == [] && u.lookups == 0 then u.(phase := Dropping(None, false)) else u
  }

  /** The race is over as soon as one of its futures is. */
  predicate Woken(s: State)
    requires PendingInRange(s)
  {
    s.changed || exists p :: p in s.pending && !s.attempts[p].status.Running?
  }

  datatype Event =
    | Turn
    | Finish(attempt: nat, status: Status)
    | Expand(task: nat, found: seq<Candidate>)
    | Resolve(task: nat, found: seq<Candidate>)
    | EndTask(task: nat)
    | CancelTask(task: nat)
    | Tick
    | Cancel
    | Close(attempt: nat)
    | Leave

  predicate AllEnded(s: State)
    requires PendingInRange(s)
  {
    forall p :: p in s.pending ==> !s.attempts[p].status.Running?
  }

  /** When a step can happen. Lookups may end with anything at any time, since a used-up budget ends them
      early with nothing. `cancel` reaches the dial at the race. */
  predicate Enabled(s: State, e: Event) {
    PendingInRange(s)
    && match e
       case Turn => s.phase.Racing? && Woken(s)
       case Finish(i, status) =>
         i < |s.attempts| && s.attempts[i].status.Running? && !status.Running? && !s.phase.Ended?
       case Expand(t, _) => t < |s.tasks| && s.tasks[t].Expanding?
       case Resolve(t, _) => t < |s.tasks| && s.tasks[t].Resolving? && s.tasks[t].waiting > 0
       case EndTask(t) => t < |s.tasks| && s.tasks[t] == Resolving(0)
       case CancelTask(t) => t < |s.tasks| && !s.tasks[t].Done? && s.phase.Ended?
       case Tick => !s.expired
       case Cancel => s.phase.Racing?
       case Close(i) =>
         s.phase.Dropping? && AllEnded(s) && i in s.pending && s.attempts[i].status.Connected? && i !in s.closed
       case Leave =>
         s.phase.Dropping? && AllEnded(s)
         && forall p :: p in s.pending && s.attempts[p].status.Connected? ==> p in s.closed
  }

  function Apply(s: State, e: Event): State
    requires Enabled(s, e)
  {
    match e
    case Turn => Iterate(s)
    case Finish(i, status) => s.(attempts := s.attempts[i := s.attempts[i].(status := status)])
    case Expand(t, found) =>
      s.(unresolved := Spent(s.unresolved, found),
         tasks := s.tasks[t := Resolving(|Taken(s.unresolved, found)|)])
    case Resolve(t, found) => Enqueue(s.(tasks := s.tasks[t := Resolving(s.tasks[t].waiting - 1)]), found)
    case EndTask(t) => s.(tasks := s.tasks[t := Done], lookups := s.lookups - 1, changed := true)
    case CancelTask(t) => s.(tasks := s.tasks[t := Done], lookups := s.lookups - 1, changed := true)
    case Tick => s.(expired := true)
    case Cancel => s.(phase := Dropping(None, true))
    case Close(i) => s.(closed := s.closed + {i})
    case Leave => s.(phase := Ended(s.phase.winner, s.phase.cancelled))
  }

  /** The state `run` is in when it first reaches the loop. */
  function Start(direct: seq<Candidate>, names: seq<Candidate>, expired: bool): State {
    var named := Taken(Budget(MAX_DIAL_CANDIDATES, {}), names);
    var empty := State(
      Budget(MAX_DIAL_CANDIDATES, {}), Budget(MAX_EXPANDED_ADDRESSES, {}), [], [], |named|, false, [],
      seq(|named|, _ => Expanding), Racing, expired, {}, []);
    Enqueue(empty, direct)
  }

  /** A run of the machine from `s`: every event is enabled where it happens. */
  ghost predicate Runs(s: State, events: seq<Event>, end: State)
    decreases events
  {
    if events == [] then s == end
    else Enabled(s, events[0]) && Runs(Apply(s, events[0]), events[1..], end)
  }

  function Opened(attempts: seq<Attempt>): (cs: seq<Candidate>)
    ensures |cs| == |attempts| && forall i :: 0 <= i < |cs| ==> cs[i] == attempts[i].candidate
  {
    seq(|attempts|, i requires 0 <= i < |attempts| => attempts[i].candidate)
  }

  function Unfinished(tasks: seq<Task>): nat {
    if tasks == [] then 0
    else Unfinished(tasks[..|tasks| - 1]) + if tasks[|tasks| - 1].Done? then 0 else 1
  }
}
