/** The per-peer dial locks of `libp2p/dialer.nim`. The lock inside is a first-come mutex that hands over to
    the first waiter that was not cancelled. */
module DialLocks {
  import opened Basics

  /** A queued dial; a cancelled one stays in the queue and is skipped. */
  datatype Waiter = Waiter(dial: nat, live: bool)

  /** The dials still waiting, first come first. */
  function Waiting(ws: seq<Waiter>): (r: seq<nat>)
    ensures forall d :: d in r <==> Waiter(d, true) in ws
  {
    if ws == [] then []
    else if ws[0].live then [ws[0].dial] + Waiting(ws[1..])
    else Waiting(ws[1..])
  }

  /** `s` without `d`, in the same order. */
  function Without(s: seq<nat>, d: nat): (r: seq<nat>)
    ensures forall x :: x in r <==> x in s && x != d
  {
    if s == [] then []
    else if s[0] == d then Without(s[1..], d)
    else [s[0]] + Without(s[1..], d)
  }

  lemma {:induction false} WithoutOne(s: seq<nat>, d: nat)
    requires Distinct(s)
    ensures Distinct(Without(s, d))
    ensures |Without(s, d)| == if d in s then |s| - 1 else |s|
  {
    if s != [] {
      WithoutOne(s[1..], d);
      var rest := Without(s[1..], d);
      forall i | 0 <= i < |rest|
        ensures rest[i] != s[0]
      {
        assert rest[i] in rest;
      }
      if s[0] == d {
        assert d !in s[1..];
      }
    }
  }

  lemma {:induction false} WaitingAppend(ws: seq<Waiter>, d: nat)
    ensures Waiting(ws + [Waiter(d, true)]) == Waiting(ws) + [d]
  {
    if ws == [] {
      assert ws + [Waiter(d, true)] == [Waiter(d, true)];
    } else {
      assert (ws + [Waiter(d, true)])[1..] == ws[1..] + [Waiter(d, true)];
      WaitingAppend(ws[1..], d);
    }
  }

  function Cancelled(ws: seq<Waiter>, d: nat): (r: seq<Waiter>)
    ensures |r| == |ws|
  {
    seq(|ws|, i requires 0 <= i < |ws| => if ws[i].dial == d then Waiter(d, false) else ws[i])
  }

  lemma {:induction false} WaitingCancelled(ws: seq<Waiter>, d: nat)
    ensures Waiting(Cancelled(ws, d)) == Without(Waiting(ws), d)
  {
    if ws != [] {
      assert Cancelled(ws, d)[1..] == Cancelled(ws[1..], d);
      WaitingCancelled(ws[1..], d);
    }
  }

  datatype LockState<P> = LockState(lock: DialLock<P>, users: int, locked: bool, waiters: seq<Waiter>)

  class DialLock<P> {
    var locked: bool
    var waiters: seq<Waiter>
    var users: int
    ghost const peer: P

    constructor (ghost peer: P)
      ensures !locked && waiters == [] && users == 0 && this.peer == peer
    {
      locked, waiters, users, this.peer := false, [], 0, peer;
    }

    ghost function State(): LockState<P>
      reads this
    {
      LockState(this, users, locked, waiters)
    }

    /** One more user, and `AsyncLock.acquire` up to its wait: taken at once, or queued behind everybody
        still waiting. */
    method Acquire(d: nat) returns (now: bool)
      modifies this
      ensures now <==> !old(locked) && Waiting(old(waiters)) == []
      ensures State() == LockState(this, old(users) + 1, true,
                                   if now then old(waiters) else old(waiters) + [Waiter(d, true)])
    {
      users := users + 1;
      var idle := true;
      for i := 0 to |waiters|
        invariant idle <==> forall j :: 0 <= j < i ==> !waiters[j].live
      {
        if waiters[i].live {
          idle := false;
        }
      }
      NobodyWaits(waiters);
      now := !locked && idle;
      if !now {
        waiters := waiters + [Waiter(d, true)];
      }
      locked := true;
    }

    /** `AsyncLock.release`: hands over to the first waiter that is still waiting. */
    method Release() returns (next: Option<nat>)
      requires locked
      modifies this`locked, this`waiters
      ensures next == if Waiting(old(waiters)) == [] then None else Some(Waiting(old(waiters))[0])
      ensures Waiting(waiters) == if next.None? then [] else Waiting(old(waiters))[1..]
      ensures locked == next.Some?
    {
      while waiters != []
        invariant Waiting(waiters) == Waiting(old(waiters)) && locked
        decreases |waiters|
      {
        var first := waiters[0];
        waiters := waiters[1..];
        if first.live {
          assert Waiting(old(waiters)) == [first.dial] + Waiting(waiters);
          assert Waiting(old(waiters))[1..] == Waiting(waiters);
          return Some(first.dial);
        }
      }
      locked := false;
      next := None;
    }

    method Cancel(d: nat)
      modifies this`waiters
      ensures waiters == Cancelled(old(waiters), d)
    {
      for i := 0 to |waiters|
        invariant |waiters| == |old(waiters)|
        invariant forall j :: 0 <= j < |waiters| ==>
                    waiters[j] == if j < i then Cancelled(old(waiters), d)[j] else old(waiters)[j]
      {
        if waiters[i].dial == d {
          waiters := waiters[i := Waiter(d, false)];
        }
      }
    }
  }

  lemma {:induction false} NobodyWaits(ws: seq<Waiter>)
    ensures Waiting(ws) == [] <==> forall j :: 0 <= j < |ws| ==> !ws[j].live
  {
    if j :| 0 <= j < |ws| && ws[j].live {
      assert Waiter(ws[j].dial, true) in ws;
      assert ws[j].dial in Waiting(ws);
    } else if Waiting(ws) != [] {
      assert Waiting(ws)[0] in Waiting(ws);
    }
  }

  /** A dial in flight: the peer it is for, the lock it was given, and whether it has it. */
  datatype Dial<P> = Dial(peer: P, lock: DialLock<P>, inside: bool)

  /** The dials of one peer: the first is inside, the others wait in this order, all with the same lock. */
  ghost predicate Line<P(!new)>(dials: map<nat, Dial<P>>, peer: P, s: LockState<P>, queue: seq<nat>) {
    && queue != [] && Distinct(queue)
    && s.locked && s.users == |queue|
    && Waiting(s.waiters) == queue[1..]
    && forall i :: 0 <= i < |queue| ==> queue[i] in dials && dials[queue[i]] == Dial(peer, s.lock, i == 0)
  }

  /** Every dial is in the line of its peer. */
  ghost predicate Covers<P(!new)>(dials: map<nat, Dial<P>>, queues: map<P, seq<nat>>) {
    forall d :: d in dials ==> dials[d].peer in queues && d in queues[dials[d].peer]
  }

  /** The table has a lock for exactly the peers with a line. */
  ghost predicate Orderly<P(!new)>(table: map<P, LockState<P>>, dials: map<nat, Dial<P>>, queues: map<P, seq<nat>>) {
    && table.Keys == queues.Keys
    && Covers(dials, queues)
    && forall p :: p in table ==> Line(dials, p, table[p], queues[p])
  }

  class Dialer<P(==,!new)> {
    var dialLocks: map<P, DialLock<P>>
    ghost var dials: map<nat, Dial<P>>
    ghost var queues: map<P, seq<nat>>
    ghost var locks: set<DialLock<P>>

    /** No two peers share a lock. */
    ghost predicate Apart()
      reads this, locks
    {
      forall p :: p in dialLocks ==> dialLocks[p] in locks && dialLocks[p].peer == p
    }

    ghost function Table(): map<P, LockState<P>>
      requires Apart()
      reads this, locks
    {
      map p | p in dialLocks :: dialLocks[p].State()
    }

    ghost predicate Valid()
      reads this, locks
    {
      Apart() && Orderly(Table(), dials, queues)
    }

    constructor ()
      ensures Valid() && dialLocks == map[] && dials == map[] && locks == {}
    {
      dialLocks, dials, queues, locks := map[], map[], map[], {};
    }

    /** The lock of a peer without one: in the table, and taken. */
    method OpenLock(d: nat, peer: P) returns (lock: DialLock<P>)
      requires Apart() && peer !in dialLocks
      modifies this`dialLocks, this`locks
      ensures dialLocks == old(dialLocks)[peer := lock] && locks == old(locks) + {lock} && fresh(lock)
      ensures Apart() && Table() == old(Table())[peer := LockState(lock, 1, true, [])]
    {
      lock := new DialLock(peer);
      var _ := lock.Acquire(d);
      dialLocks := dialLocks[peer := lock];
      locks := locks + {lock};
    }

    /** `acquireDialLock` up to its wait: a dial is inside at once exactly when the peer has no other. */
    method Acquire(d: nat, peer: P) returns (inside: bool)
      requires Valid() && d !in dials
      modifies this, locks
      ensures Valid() && peer in dialLocks
      ensures dials == old(dials)[d := Dial(peer, dialLocks[peer], inside)]
      ensures inside <==> peer !in old(queues)
      ensures queues == old(queues)[peer := (if inside then [] else old(queues[peer])) + [d]]
      ensures fresh(locks - old(locks))
    {
      hide Orderly, Waiting;
      ghost var table := Table();
      if peer !in dialLocks {
        var lock := OpenLock(d, peer);
        AcquireOrderly(table, dials, queues, d, peer, lock);
        inside := true;
        dials, queues := dials[d := Dial(peer, lock, true)], queues[peer := [] + [d]];
        assert Table() == table[peer := LockState(lock, 1, true, [])];
      } else {
        var lock := dialLocks[peer];
        AcquireOrderly(table, dials, queues, d, peer, lock);
        inside := lock.Acquire(d);
        dials, queues := dials[d := Dial(peer, lock, false)], queues[peer := queues[peer] + [d]];
        assert Table() == table[peer := lock.State()];
      }
    }

    /** `dropUser`. */
    method DropUser(peer: P, lock: DialLock<P>)
      modifies this`dialLocks, lock`users
      ensures lock.users == old(lock.users) - 1
      ensures dialLocks ==
              if lock.users == 0 && peer in old(dialLocks) && old(dialLocks)[peer] == lock then old(dialLocks) - {peer}
              else old(dialLocks)
    {
      lock.users := lock.users - 1;
      if lock.users == 0 && peer in dialLocks && dialLocks[peer] == lock {
        dialLocks := dialLocks - {peer};
      }
    }

    /** A dial cancelled while it waits: it leaves the line, and everybody else stays in place. */
    method Cancel(d: nat, peer: P, lock: DialLock<P>)
      requires Valid() && d in dials && dials[d] == Dial(peer, lock, false)
      modifies this, locks
      ensures Valid() && dialLocks == old(dialLocks) && locks == old(locks)
      ensures dials == old(dials) - {d}
      ensures peer in old(queues) && queues == old(queues)[peer := Without(old(queues)[peer], d)]
    {
      hide Orderly, Waiting;
      ghost var table := Table();
      CancelOrderly(table, dials, queues, d);
      assert lock == dialLocks[peer];
      lock.Cancel(d);
      DropUser(peer, lock);
      dials, queues := dials - {d}, queues[peer := Without(queues[peer], d)];
      assert Table() == table[peer := lock.State()];
    }

    /** `releaseDialLock`: the first dial that waits is inside next; without one the entry goes. */
    method Release(d: nat, peer: P, lock: DialLock<P>) returns (next: Option<nat>)
      requires Valid() && d in dials && dials[d] == Dial(peer, lock, true)
      modifies this, locks
      ensures Valid() && locks == old(locks)
      ensures peer in old(queues) && old(queues)[peer] != [] && old(queues)[peer][0] == d
      ensures next == Next(old(queues)[peer])
      ensures queues == Shorter(old(queues), peer) && dials == HandedOver(old(dials), d, peer, lock, next)
    {
      hide Orderly, Waiting;
      ghost var table := Table();
      ReleaseOrderly(table, dials, queues, d);
      assert lock == dialLocks[peer];
      next := lock.Release();
      DropUser(peer, lock);
      dials, queues := HandedOver(dials, d, peer, lock, next), Shorter(queues, peer);
      assert Table() == if next.None? then table - {peer} else table[peer := lock.State()];
    }
  }

  /** Who is inside after the first of the line leaves. */
  function Next(queue: seq<nat>): Option<nat> {
    if |queue| < 2 then None else Some(queue[1])
  }

  /** The lines after the first of the peer's line left. */
  function Shorter<P>(queues: map<P, seq<nat>>, peer: P): map<P, seq<nat>>
    requires peer in queues && queues[peer] != []
  {
    if |queues[peer]| < 2 then queues - {peer} else queues[peer := queues[peer][1..]]
  }

  ghost function HandedOver<P>(dials: map<nat, Dial<P>>, d: nat, peer: P, lock: DialLock<P>, next: Option<nat>): map<nat, Dial<P>> {
    if next.None? then dials - {d} else (dials - {d})[next.value := Dial(peer, lock, true)]
  }

  lemma {:induction false} CancelOrderly<P(!new)>(
    table: map<P, LockState<P>>, dials: map<nat, Dial<P>>, queues: map<P, seq<nat>>, d: nat)
    requires Orderly(table, dials, queues) && d in dials && !dials[d].inside
    ensures var peer := dials[d].peer;
            && peer in table && peer in queues && table[peer].lock == dials[d].lock && table[peer].users >= 2
            && table[peer].locked
            && Orderly(table[peer := LockState(table[peer].lock, table[peer].users - 1, true, Cancelled(table[peer].waiters, d))],
                       dials - {d}, queues[peer := Without(queues[peer], d)])
  {
    hide Line, Covers, Waiting;
    var peer := dials[d].peer;
    LineHas(table, dials, queues, d);
    LineLeaves(dials, d, peer, table[peer], queues[peer]);
    CoversLess(dials, queues, d, Without(queues[peer], d));
    forall q | q in table && q != peer
      ensures Line(dials - {d}, q, table[q], queues[q])
    {
      LineStays(dials, dials - {d}, d, q, table[q], queues[q]);
    }
  }

  lemma {:induction false} ReleaseOrderly<P(!new)>(
    table: map<P, LockState<P>>, dials: map<nat, Dial<P>>, queues: map<P, seq<nat>>, d: nat)
    requires Orderly(table, dials, queues) && d in dials && dials[d].inside
    ensures var peer, lock := dials[d].peer, dials[d].lock;
            && peer in table && peer in queues && table[peer].lock == lock && table[peer].locked
            && queues[peer] != [] && queues[peer][0] == d && table[peer].users == |queues[peer]|
            && Waiting(table[peer].waiters) == queues[peer][1..]
            && (|queues[peer]| < 2 ==> Orderly(table - {peer}, dials - {d}, queues - {peer}))
            && forall left :: |queues[peer]| >= 2 && Waiting(left) == queues[peer][1..][1..] ==>
                 Orderly(table[peer := LockState(lock, table[peer].users - 1, true, left)],
                         HandedOver(dials, d, peer, lock, Some(queues[peer][1])), queues[peer := queues[peer][1..]])
  {
    hide Line, Covers, Waiting;
    var peer, lock := dials[d].peer, dials[d].lock;
    LineHas(table, dials, queues, d);
    var queue := queues[peer];
    LineWaits(dials, peer, table[peer], queue);
    CoversLess(dials, queues, d, queue[1..]);
    var now := HandedOver(dials, d, peer, lock, Next(queue));
    forall q | q in table && q != peer
      ensures Line(now, q, table[q], queues[q])
    {
      LineStaysTwo(dials, d, Next(queue), q, table[q], queues[q]);
    }
    if |queue| >= 2 {
      CoversSame(dials - {d}, queues[peer := queue[1..]], queue[1], Dial(peer, lock, true));
      forall left | Waiting(left) == queue[1..][1..]
        ensures Line(now, peer, LockState(lock, table[peer].users - 1, true, left), queue[1..])
      {
        LineHandsOver(dials, d, peer, table[peer], queue, left);
      }
    }
  }

  /** A dial finds its peer's line and its own lock in the table. */
  lemma {:induction false} LineHas<P(!new)>(
    table: map<P, LockState<P>>, dials: map<nat, Dial<P>>, queues: map<P, seq<nat>>, d: nat)
    requires Orderly(table, dials, queues) && d in dials
    ensures var peer := dials[d].peer;
            && peer in table && peer in queues && Line(dials, peer, table[peer], queues[peer])
            && table[peer].lock == dials[d].lock && d in queues[peer] && queues[peer] != []
            && (dials[d].inside <==> queues[peer][0] == d)
  {
    var peer := dials[d].peer;
    assert Line(dials, peer, table[peer], queues[peer]);
    var i :| 0 <= i < |queues[peer]| && queues[peer][i] == d;
  }

  lemma {:induction false} LineWaits<P(!new)>(dials: map<nat, Dial<P>>, peer: P, s: LockState<P>, queue: seq<nat>)
    requires Line(dials, peer, s, queue)
    ensures s.locked && s.users == |queue| && Waiting(s.waiters) == queue[1..]
    ensures forall i :: 0 <= i < |queue| ==> queue[i] in dials && dials[queue[i]].peer == peer
    ensures |queue| < 2 ==> forall e :: e in queue ==> e == queue[0]
  {
  }

  /** The line without a cancelled dial. */
  lemma {:induction false} LineLeaves<P(!new)>(
    dials: map<nat, Dial<P>>, d: nat, peer: P, s: LockState<P>, queue: seq<nat>)
    requires Line(dials, peer, s, queue)
    requires d in queue && queue[0] != d
    ensures s.users >= 2 && s.locked
    ensures Line(dials - {d}, peer, LockState(s.lock, s.users - 1, true, Cancelled(s.waiters, d)), Without(queue, d))
  {
    WaitingCancelled(s.waiters, d);
    WithoutOne(queue, d);
    var rest := Without(queue, d);
    assert rest == [queue[0]] + Without(queue[1..], d);
    forall i | 0 <= i < |rest|
      ensures rest[i] in dials - {d} && dials[rest[i]] == Dial(peer, s.lock, i == 0)
    {
      assert rest[i] in rest;
      var j :| 0 <= j < |queue| && queue[j] == rest[i];
      assert rest[0] == queue[0];
      assert i != 0 ==> rest[i] != rest[0];
    }
  }

  /** The line without the dial that was inside. */
  lemma {:induction false} LineHandsOver<P(!new)>(
    dials: map<nat, Dial<P>>, d: nat, peer: P, s: LockState<P>, queue: seq<nat>, left: seq<Waiter>)
    requires Line(dials, peer, s, queue)
    requires queue[0] == d && |queue| >= 2
    requires Waiting(left) == queue[1..][1..]
    ensures Line(HandedOver(dials, d, peer, s.lock, Some(queue[1])), peer, LockState(s.lock, s.users - 1, true, left), queue[1..])
  {
    hide Waiting;
    var rest := queue[1..];
    var now := HandedOver(dials, d, peer, s.lock, Some(queue[1]));
    forall i | 0 <= i < |rest|
      ensures rest[i] in now && now[rest[i]] == Dial(peer, s.lock, i == 0)
    {
      assert rest[i] == queue[i + 1];
    }
  }

  lemma {:induction false} CoversLess<P(!new)>(dials: map<nat, Dial<P>>, queues: map<P, seq<nat>>, d: nat, line: seq<nat>)
    requires d in dials && Covers(dials, queues) && dials[d].peer in queues
    requires forall e :: e in queues[dials[d].peer] && e != d ==> e in line
    ensures Covers(dials - {d}, queues[dials[d].peer := line])
    ensures (forall e :: e in queues[dials[d].peer] ==> e == d) ==> Covers(dials - {d}, queues - {dials[d].peer})
  {
  }

  lemma {:induction false} CoversSame<P(!new)>(dials: map<nat, Dial<P>>, queues: map<P, seq<nat>>, d: nat, dial: Dial<P>)
    requires Covers(dials, queues)
    requires dial.peer in queues && d in queues[dial.peer]
    ensures Covers(dials[d := dial], queues)
  {
  }

  lemma {:induction false} LineStaysTwo<P(!new)>(
    dials: map<nat, Dial<P>>, d: nat, next: Option<nat>, peer: P, s: LockState<P>, queue: seq<nat>)
    requires Line(dials, peer, s, queue)
    requires d in dials && dials[d].peer != peer
    requires next.Some? ==> next.value in dials && dials[next.value].peer != peer
    ensures Line(HandedOver(dials, d, dials[d].peer, dials[d].lock, next), peer, s, queue)
  {
    hide Waiting;
    var now := HandedOver(dials, d, dials[d].peer, dials[d].lock, next);
    forall i | 0 <= i < |queue|
      ensures queue[i] in now && now[queue[i]] == dials[queue[i]]
    {
      assert queue[i] in queue;
    }
  }

  lemma {:induction false} AcquireOrderly<P(!new)>(
    table: map<P, LockState<P>>, dials: map<nat, Dial<P>>, queues: map<P, seq<nat>>, d: nat, peer: P, lock: DialLock<P>)
    requires Orderly(table, dials, queues) && d !in dials
    requires peer in table ==> table[peer].lock == lock
    ensures peer in table <==> peer in queues
    ensures peer in table ==> table[peer].locked
    ensures Waiting([]) == []
    ensures peer !in table ==>
              Orderly(table[peer := LockState(lock, 1, true, [])], dials[d := Dial(peer, lock, true)],
                      queues[peer := [] + [d]])
    ensures peer in table ==>
              var s := table[peer];
              Orderly(table[peer := LockState(lock, s.users + 1, true, s.waiters + [Waiter(d, true)])],
                      dials[d := Dial(peer, lock, false)], queues[peer := queues[peer] + [d]])
  {
    hide Line, Covers, Waiting;
    var line := if peer in queues then queues[peer] else [];
    var dial := Dial(peer, lock, peer !in table);
    var now := dials[d := dial];
    CoversMore(dials, queues, d, dial, line);
    forall q | q in table && q != peer
      ensures Line(now, q, table[q], queues[q])
    {
      LineStays(dials, now, d, q, table[q], queues[q]);
    }
    LineStarts(dials, d, peer, lock);
    if peer in table {
      LineJoins(dials, d, peer, table[peer], line);
    }
  }

  lemma {:induction false} CoversMore<P(!new)>(
    dials: map<nat, Dial<P>>, queues: map<P, seq<nat>>, d: nat, dial: Dial<P>, line: seq<nat>)
    requires Covers(dials, queues)
    requires line == if dial.peer in queues then queues[dial.peer] else []
    ensures Covers(dials[d := dial], queues[dial.peer := line + [d]])
  {
  }

  lemma {:induction false} LineStarts<P(!new)>(dials: map<nat, Dial<P>>, d: nat, peer: P, lock: DialLock<P>)
    ensures Line(dials[d := Dial(peer, lock, true)], peer, LockState(lock, 1, true, []), [] + [d])
    ensures Waiting([]) == []
  {
  }

  lemma {:induction false} LineJoins<P(!new)>(
    dials: map<nat, Dial<P>>, d: nat, peer: P, s: LockState<P>, queue: seq<nat>)
    requires d !in dials
    requires Line(dials, peer, s, queue)
    ensures s.locked
    ensures Line(dials[d := Dial(peer, s.lock, false)], peer,
                 LockState(s.lock, s.users + 1, true, s.waiters + [Waiter(d, true)]), queue + [d])
  {
    WaitingAppend(s.waiters, d);
    assert (queue + [d])[1..] == queue[1..] + [d];
  }

  /** A peer's line does not depend on the dials of other peers. */
  lemma {:induction false} LineStays<P(!new)>(
    dials: map<nat, Dial<P>>, now: map<nat, Dial<P>>, d: nat, peer: P, s: LockState<P>, queue: seq<nat>)
    requires Line(dials, peer, s, queue)
    requires d in dials ==> dials[d].peer != peer
    requires forall e :: e in dials && e != d ==> e in now && now[e] == dials[e]
    ensures Line(now, peer, s, queue)
  {
    forall i | 0 <= i < |queue|
      ensures queue[i] in now && now[queue[i]] == dials[queue[i]]
    {
      assert queue[i] in queue;
    }
  }

  /** The dials of a peer. */
  ghost function Users<P(!new)>(dials: map<nat, Dial<P>>, peer: P): set<nat> {
    set d | d in dials && dials[d].peer == peer
  }

  lemma {:induction false} DistinctCount(s: seq<nat>, elements: set<nat>)
    requires Distinct(s)
    requires forall x :: x in elements <==> x in s
    ensures |elements| == |s|
  {
    if s == [] {
      assert elements == {};
    } else {
      DistinctCount(s[1..], elements - {s[0]});
    }
  }

  /** In every reachable state: the table has an entry for a peer exactly while a dial of that peer is in
      flight; the entry's count is the number of those dials; exactly one of them is inside; and all of them
      were given the lock in the table. */
  lemma {:induction false} OneInside<P(!new)>(
    table: map<P, LockState<P>>, dials: map<nat, Dial<P>>, queues: map<P, seq<nat>>, peer: P)
    requires Orderly(table, dials, queues)
    ensures peer in table <==> Users(dials, peer) != {}
    ensures peer in table ==>
              && table[peer].users == |Users(dials, peer)|
              && (exists d :: d in Users(dials, peer) && dials[d].inside)
              && (forall d, e :: d in Users(dials, peer) && e in Users(dials, peer) && dials[d].inside && dials[e].inside ==> d == e)
              && (forall d :: d in Users(dials, peer) ==> dials[d].lock == table[peer].lock)
              && (forall d :: d in Users(dials, peer) && !dials[d].inside <==> d in Waiting(table[peer].waiters))
  {
    hide Waiting, Distinct;
    if peer in table {
      var queue := queues[peer];
      assert Line(dials, peer, table[peer], queue);
      forall d
        ensures d in Users(dials, peer) <==> d in queue
      {
      }
      DistinctCount(queue, Users(dials, peer));
      assert queue[0] in Users(dials, peer);
      forall d
        ensures d in Users(dials, peer) && !dials[d].inside <==> d in queue[1..]
      {
        if d in queue[1..] {
          var i :| 0 <= i < |queue| - 1 && queue[1..][i] == d;
          assert queue[i + 1] == d;
        }
      }
    } else {
      assert Users(dials, peer) == {};
    }
  }

  datatype Op<P> = Start(dial: nat, peer: P) | GiveUp(dial: nat) | Finish(dial: nat)

  /** Any schedule of dials, cancellations and completions keeps the locks in order. */
  method Drive<P(==,!new)>(dialer: Dialer<P>, ops: seq<Op<P>>)
    requires dialer.Valid() && dialer.dials == map[]
    modifies dialer, dialer.locks
    ensures dialer.Valid()
  {
    hide Orderly, Waiting;
    var mine: map<nat, Dial<P>> := map[];
    for i := 0 to |ops|
      invariant dialer.Valid() && mine == dialer.dials
      invariant forall l :: l in dialer.locks ==> l in old(dialer.locks) || fresh(l)
    {
      match ops[i]
      case Start(d, peer) =>
        if d !in mine {
          var inside := dialer.Acquire(d, peer);
          mine := mine[d := Dial(peer, dialer.dialLocks[peer], inside)];
        }
      case GiveUp(d) =>
        if d in mine && !mine[d].inside {
          dialer.Cancel(d, mine[d].peer, mine[d].lock);
          mine := mine - {d};
        }
      case Finish(d) =>
        if d in mine && mine[d].inside {
          var was := mine[d];
          var next := dialer.Release(d, was.peer, was.lock);
          mine := mine - {d};
          if next.Some? {
            mine := mine[next.value := Dial(was.peer, was.lock, true)];
          }
        }
    }
  }
}
