/** The abortable first-in first-out semaphore, and the gates that let one history reader at
    a time talk to a relay: made when needed, dropped when idle. */
module Gates {

  // ------------------------------------------------------------ orders of jobs

  ghost predicate Distinct(s: seq<int>) { forall i, j :: 0 <= i < j < |s| ==> s[i] != s[j] }

  /** The jobs of `s` that are not in `gone`, in order. */
  function Kept(s: seq<int>, gone: set<int>): seq<int> {
    if s == [] then []
    else Kept(s[..|s| - 1], gone) + if s[|s| - 1] in gone then [] else [s[|s| - 1]]
  }

  lemma KeptMore(s: seq<int>, gone: set<int>, job: int)
    ensures Kept(s + [job], gone) == Kept(s, gone) + if job in gone then [] else [job]
  {
  }

  lemma {:induction false} KeptMembers(s: seq<int>, gone: set<int>, job: int)
    ensures job in Kept(s, gone) <==> job in s && job !in gone
  {
    if s != [] {
      KeptMembers(s[..|s| - 1], gone, job);
      assert s == s[..|s| - 1] + [s[|s| - 1]];
    }
  }

  lemma {:induction false} KeptDistinct(s: seq<int>, gone: set<int>)
    requires Distinct(s)
    ensures Distinct(Kept(s, gone))
  {
    if s != [] {
      var front, last := s[..|s| - 1], s[|s| - 1];
      KeptDistinct(front, gone);
      KeptMembers(front, gone, last);
    }
  }

  lemma {:induction false} KeptConcat(a: seq<int>, b: seq<int>, gone: set<int>)
    ensures Kept(a + b, gone) == Kept(a, gone) + Kept(b, gone)
  {
    if b == [] {
      assert a + b == a;
    } else {
      var front, last := b[..|b| - 1], b[|b| - 1];
      KeptConcat(a, front, gone);
      KeptMore(a + front, gone, last);
      assert a + b == (a + front) + [last];
    }
  }

  lemma {:induction false} KeptTwice(s: seq<int>, gone: set<int>, more: set<int>)
    ensures Kept(Kept(s, gone), more) == Kept(s, gone + more)
  {
    if s != [] {
      var front, last := s[..|s| - 1], s[|s| - 1];
      KeptTwice(front, gone, more);
      assert s == front + [last];
      KeptMore(front, gone, last);
      KeptMore(front, gone + more, last);
      KeptMore(Kept(front, gone), more, last);
      assert Kept(front, gone) + [] == Kept(front, gone);
    }
  }

  lemma {:induction false} KeptAll(s: seq<int>, gone: set<int>)
    requires forall x :: x in s ==> x !in gone
    ensures Kept(s, gone) == s
  {
    if s != [] {
      var front, last := s[..|s| - 1], s[|s| - 1];
      assert last in s && s == front + [last];
      KeptAll(front, gone);
    }
  }

  /** Taking one job out of an order that holds it once. */
  lemma KeptWithout(a: seq<int>, i: nat)
    requires i < |a| && Distinct(a)
    ensures Kept(a, {a[i]}) == a[..i] + a[i + 1..]
  {
    var front, back, job := a[..i], a[i + 1..], a[i];
    assert a == (front + [job]) + back;
    OnlyThere(a, i);
    KeptConcat(front + [job], back, {job});
    KeptMore(front, {job}, job);
    KeptAll(front, {job});
    KeptAll(back, {job});
    assert Kept(front + [job], {job}) == front;
  }

  lemma OnlyThere(a: seq<int>, i: nat)
    requires i < |a| && Distinct(a)
    ensures a[i] !in a[..i] && a[i] !in a[i + 1..]
  {
  }

  // -------------------------------------------------------------- the semaphore

  datatype Outcome = Thrown | Full | Accepted

  class Gate {
    const capacity: nat
    const maxQueued: nat
    const relay: int
    var queue: seq<int>
    var active: nat
    /** The leases that have not been released. */
    var live: set<int>
    ghost var arrivals: seq<int>
    ghost var aborted: set<int>
    ghost var granted: seq<int>

    /** Leases never exceed the capacity, a job waits only when it is used up, and the jobs
        that were not aborted are granted in the order of their arrival. */
    ghost predicate Valid() reads this {
      && Settled()
      && (queue != [] ==> active == capacity)
    }

    /** The same in the middle of an operation, when a lease may be free for a waiting job. */
    ghost predicate Settled() reads this {
      && capacity > 0 && active == |live| <= capacity && |queue| <= maxQueued
      && Distinct(arrivals) && Kept(arrivals, aborted) == granted + queue
      && forall job :: job in live ==> job in granted
    }

    predicate Idle() reads this { active == 0 && queue == [] }

    constructor (capacity: nat, maxQueued: nat, relay: int)
      requires capacity > 0
      ensures Valid() && this.capacity == capacity && this.maxQueued == maxQueued && this.relay == relay
      ensures queue == [] && live == {} && arrivals == [] && granted == [] && aborted == {}
    {
      this.capacity, this.maxQueued, this.relay := capacity, maxQueued, relay;
      queue, active, live := [], 0, {};
      arrivals, aborted, granted := [], {}, [];
    }

    /** One round of drain: the first waiting job gets a lease. */
    method Grant()
      requires Settled() && active < capacity && queue != []
      modifies `queue, `active, `live, `granted
      ensures Settled() && granted == old(granted) + [old(queue)[0]] && queue == old(queue)[1..]
      ensures live == old(live) + {old(queue)[0]} && active == old(active) + 1
    {
      var job := queue[0];
      NextIsNew(arrivals, aborted, granted, queue);
      queue := queue[1..];
      active := active + 1;
      live := live + {job};
      granted := granted + [job];
    }

    /** drain: jobs leave the queue from its front as long as there is capacity. */
    method Drain() returns (idle: bool)
      requires Settled()
      modifies `queue, `active, `live, `granted
      ensures Valid() && idle == Idle()
      ensures granted + queue == old(granted + queue) && old(granted) <= granted
      ensures live == old(live) + (set job | job in granted[|old(granted)|..])
      ensures |granted| == |old(granted)| + Least(capacity - old(active), |old(queue)|)
      ensures old(Valid()) ==> unchanged(this)
    {
      while active < capacity && queue != []
        invariant Settled()
        invariant granted + queue == old(granted + queue) && old(granted) <= granted
        invariant live == old(live) + (set job | job in granted[|old(granted)|..])
        invariant active - old(active) == |granted| - |old(granted)| == |old(queue)| - |queue|
        invariant old(Valid()) ==> unchanged(this)
        decreases |queue|
      {
        ghost var before, job := granted, queue[0];
        Grant();
        assert granted[|old(granted)|..] == before[|old(granted)|..] + [job];
      }
      idle := active == 0 && queue == [];
    }

    /** acquire. A job that is neither aborted beforehand nor one too many waits its turn. */
    method Acquire(job: int, isAborted: bool) returns (outcome: Outcome, idle: bool)
      requires Valid() && job !in arrivals && job !in aborted
      modifies `queue, `active, `live, `granted, `arrivals
      ensures Valid() && aborted == old(aborted)
      ensures outcome == if isAborted then Thrown else if |old(queue)| >= maxQueued then Full else Accepted
      ensures outcome != Accepted ==> unchanged(this)
      ensures outcome == Accepted ==> arrivals == old(arrivals) + [job] && !Idle() && (job in live || job in queue)
      ensures outcome == Accepted ==> granted + queue == old(granted + queue) + [job] && old(granted) <= granted
      ensures outcome == Accepted ==> live == old(live) + (set j | j in granted[|old(granted)|..])
      ensures outcome == Accepted ==> if old(active) < capacity then live == old(live) + {job} && queue == []
        else live == old(live) && queue == old(queue) + [job]
      ensures idle ==> outcome == Accepted && Idle()
    {
      if isAborted { return Thrown, false; }
      if |queue| >= maxQueued { return Full, false; }
      idle := Enqueue(job);
      outcome := Accepted;
    }

    /** The job waits last. */
    method Line(job: int)
      requires Valid() && job !in arrivals && job !in aborted && |queue| < maxQueued
      modifies `queue, `arrivals
      ensures Settled() && queue == old(queue) + [job] && arrivals == old(arrivals) + [job]
    {
      KeptMore(arrivals, aborted, job);
      assert (granted + queue) + [job] == granted + (queue + [job]);
      arrivals := arrivals + [job];
      queue := queue + [job];
    }

    /** The job joins the queue, and is granted at once when there is room. */
    method Enqueue(job: int) returns (idle: bool)
      requires Valid() && job !in arrivals && job !in aborted && |queue| < maxQueued
      modifies `queue, `active, `live, `granted, `arrivals
      ensures Valid() && arrivals == old(arrivals) + [job] && (job in live || job in queue)
      ensures granted + queue == old(granted + queue) + [job] && old(granted) <= granted
      ensures live == old(live) + (set j | j in granted[|old(granted)|..])
      ensures if old(active) < capacity then live == old(live) + {job} && queue == []
        else live == old(live) && queue == old(queue) + [job]
      ensures idle == Idle()
    {
      ghost var before, waiting, room := granted, queue, capacity - active;
      Line(job);
      idle := Drain();
      Joined(before, waiting, job, granted, queue, room);
    }

    /** The function a granted job gets. Calling it again does nothing. */
    method Release(job: int) returns (idle: bool)
      requires Valid()
      modifies `queue, `active, `live, `granted
      ensures Valid()
      ensures job !in old(live) ==> unchanged(this) && !idle
      ensures job in old(live) ==> idle == Idle() && granted + queue == old(granted + queue) && old(granted) <= granted
      ensures job in old(live) ==> live == old(live) - {job} + (set j | j in granted[|old(granted)|..])
      ensures job in old(live) ==> if old(queue) == [] then live == old(live) - {job} && queue == []
        else live == old(live) - {job} + {old(queue)[0]} && queue == old(queue)[1..]
      ensures job !in live
    {
      if job !in live { return false; }
      GrantedIsNotWaiting(arrivals, aborted, granted, queue, job);
      ghost var before, waiting := granted, queue;
      live := live - {job};
      active := active - 1;
      idle := Drain();
      NewlyGranted(before, waiting, granted, queue, job);
      Passed(before, waiting, granted, queue);
    }

    /** The abort listener of a waiting job; a job that was granted or has left is not affected. */
    method Abort(job: int) returns (idle: bool)
      requires Valid()
      modifies `queue, `active, `live, `granted, `aborted
      ensures Valid()
      ensures job !in old(queue) ==> unchanged(this) && !idle
      ensures job in old(queue) ==> live == old(live) && granted == old(granted) && aborted == old(aborted) + {job}
      ensures !idle
      ensures queue == Kept(old(queue), {job})
    {
      var index := 0;
      while index < |queue| && queue[index] != job
        invariant index <= |queue| && job !in queue[..index]
      {
        index := index + 1;
      }
      assert job in queue ==> index < |queue| by {
        if index == |queue| { assert queue[..index] == queue; }
      }
      if index == |queue| {
        KeptAll(queue, {job});
        return false;
      }
      LeavesQueue(arrivals, aborted, granted, queue, index);
      aborted := aborted + {job};
      queue := queue[..index] + queue[index + 1..];
      idle := Drain();
    }
  }

  function Least(a: int, b: int): int { if a < b then a else b }

  /** Who has passed from the queue to the granted jobs. */
  lemma Passed(before: seq<int>, waiting: seq<int>, granted: seq<int>, queue: seq<int>)
    requires before <= granted && granted + queue == before + waiting
    ensures var n := |granted| - |before|;
      n <= |waiting| && granted[|before|..] == waiting[..n] && queue == waiting[n..]
  {
    var n := |granted| - |before|;
    assert |granted + queue| == |before + waiting|;
    assert (granted + queue)[|before|..] == waiting && (granted + queue)[|granted|..] == queue;
    assert (granted + queue)[|before|..][..n] == granted[|before|..];
    assert (before + waiting)[|granted|..] == waiting[n..];
  }

  /** With room the job is granted at once, for nobody waits then; otherwise it waits last. */
  lemma Joined(before: seq<int>, waiting: seq<int>, job: int, granted: seq<int>, queue: seq<int>, room: nat)
    requires before <= granted && granted + queue == before + waiting + [job] && (room > 0 ==> waiting == [])
    requires |granted| == |before| + Least(room, |waiting| + 1)
    ensures (set j | j in granted[|before|..]) == if room > 0 then {job} else {}
    ensures queue == if room > 0 then [] else waiting + [job]
  {
    assert before + waiting + [job] == before + (waiting + [job]);
    Passed(before, waiting + [job], granted, queue);
    assert granted[|before|..] == if room > 0 then [job] else [];
  }

  lemma GrantedIsNotWaiting(arrivals: seq<int>, aborted: set<int>, granted: seq<int>, queue: seq<int>, job: int)
    requires Distinct(arrivals) && Kept(arrivals, aborted) == granted + queue && job in granted
    ensures job !in queue
  {
    KeptDistinct(arrivals, aborted);
    if job in queue {
      var i :| 0 <= i < |queue| && queue[i] == job;
      WaitingAreNew(granted, queue, i);
    }
  }

  lemma NewlyGranted(before: seq<int>, waiting: seq<int>, granted: seq<int>, queue: seq<int>, job: int)
    requires before <= granted && granted + queue == before + waiting && job !in waiting
    ensures job !in granted[|before|..]
  {
    assert (granted + queue)[|before|..] == waiting;
    assert (granted + queue)[|before|..] == granted[|before|..] + queue;
  }

  /** A waiting job has not been granted yet. */
  lemma NextIsNew(arrivals: seq<int>, aborted: set<int>, granted: seq<int>, queue: seq<int>)
    requires Distinct(arrivals) && Kept(arrivals, aborted) == granted + queue && queue != []
    ensures queue[0] !in granted && granted + queue == (granted + [queue[0]]) + queue[1..]
  {
    KeptDistinct(arrivals, aborted);
    var all := granted + queue;
    assert all[|granted|] == queue[0];
    assert forall i :: 0 <= i < |granted| ==> all[i] == granted[i];
  }

  lemma WaitingAreNew(granted: seq<int>, queue: seq<int>, i: nat)
    requires Distinct(granted + queue) && i < |queue|
    ensures Distinct(queue) && queue[i] !in granted
  {
    var all, n := granted + queue, |granted|;
    forall a, b | 0 <= a < b < |queue| ensures queue[a] != queue[b] {
      assert all[n + a] == queue[a] && all[n + b] == queue[b];
    }
    assert all[n + i] == queue[i];
    assert forall k :: 0 <= k < n ==> all[k] == granted[k];
  }

  lemma LeavesQueue(arrivals: seq<int>, aborted: set<int>, granted: seq<int>, queue: seq<int>, i: nat)
    requires Distinct(arrivals) && Kept(arrivals, aborted) == granted + queue && i < |queue|
    ensures Kept(arrivals, aborted + {queue[i]}) == granted + (queue[..i] + queue[i + 1..])
    ensures queue[..i] + queue[i + 1..] == Kept(queue, {queue[i]})
  {
    KeptDistinct(arrivals, aborted);
    KeptTwice(arrivals, aborted, {queue[i]});
    WaitingAreNew(granted, queue, i);
    KeptConcat(granted, queue, {queue[i]});
    KeptAll(granted, {queue[i]});
    KeptWithout(queue, i);
  }

  // ------------------------------------------------------------- relay gates

  const MAX_QUEUED: nat := 256

  class RelayGates {
    var gates: map<int, Gate>
    /** Every gate there has ever been. */
    ghost var all: set<Gate>

    /** Every gate but `gate` is in order: it allows one lease, and it is in the map exactly
        when it is not idle. */
    ghost predicate Others(gate: Gate?) reads this, all, gates.Values {
      && gates.Values <= all
      && (forall r :: r in gates ==> gates[r].relay == r)
      && (forall g :: g in all ==> g.capacity == 1 && g.maxQueued == MAX_QUEUED)
      && forall g :: g in all && g != gate ==> g.Valid() && (!g.Idle() <==> g.relay in gates && gates[g.relay] == g)
    }

    ghost predicate Valid() reads this, all, gates.Values { Others(null) }

    constructor ()
      ensures Valid() && gates == map[] && all == {}
    {
      gates, all := map[], {};
    }

    /** No relay ever has two holders, whatever gates came and went. */
    lemma OneHolder(g: Gate, h: Gate, a: int, b: int)
      requires Valid() && g in all && h in all && g.relay == h.relay && a in g.live && b in h.live
      ensures g == h && a == b
    {
      assert |g.live - {a}| == |g.live| - 1 && |h.live - {b}| == |h.live| - 1;
      assert !g.Idle() && !h.Idle();
      assert b in g.live - {a} || b == a;
    }

    /** The gate of a relay, made when there is none. */
    method GateFor(relay: int) returns (gate: Gate)
      requires Valid()
      modifies this
      ensures Others(gate) && gate in all && old(all) <= all && fresh(all - old(all)) && gate.relay == relay
      ensures relay in gates && gates[relay] == gate && gate.Valid()
      ensures forall r :: r in old(gates) ==> r in gates && gates[r] == old(gates)[r]
      ensures if relay in old(gates) then gate in old(all) && !gate.Idle()
        else fresh(gate) && gate.queue == [] && gate.live == {} && gate.arrivals == [] && gate.aborted == {}
    {
      if relay !in gates {
        var made := new Gate(1, MAX_QUEUED, relay);
        gates := gates[relay := made];
        all := all + {made};
      }
      gate := gates[relay];
    }

    /** acquireRelay: the job joins the relay's current gate. */
    method Acquire(relay: int, job: int, isAborted: bool) returns (outcome: Outcome, gate: Gate?)
      requires Valid() && forall g :: g in all ==> job !in g.arrivals && job !in g.aborted
      modifies this, all
      ensures Valid() && old(all) <= all && fresh(all - old(all))
      ensures outcome == Thrown <==> isAborted
      ensures isAborted ==> gates == old(gates) && forall g :: g in old(all) ==> unchanged(g)
      ensures gate != null ==> gate in all && gate.relay == relay && relay in gates && gates[relay] == gate
      ensures outcome == Full <==> !isAborted && relay in old(gates) && |old(gates[relay].queue)| >= 256
      ensures outcome == Full ==> gate == old(gates)[relay] && forall g :: g in old(all) ==> unchanged(g)
      ensures outcome == Accepted && relay !in old(gates) ==> gate != null && gate.live == {job} && gate.queue == []
      ensures outcome == Accepted && relay in old(gates) ==> gate == old(gates)[relay]
      ensures outcome == Accepted && relay in old(gates) ==>
        gate.live == old(gates[relay].live) && gate.queue == old(gates[relay].queue) + [job]
      ensures forall g :: g in old(all) && g != gate ==> unchanged(g)
    {
      if isAborted { return Thrown, null; }
      var g := GateFor(relay);
      outcome := Join(g, job);
      gate := g;
    }

    /** The job joins a gate that is in the map, idle only when it has just been made. */
    method Join(gate: Gate, job: int) returns (outcome: Outcome)
      requires Others(gate) && gate in all && gate.Valid() && gate.relay in gates && gates[gate.relay] == gate
      requires job !in gate.arrivals && job !in gate.aborted
      modifies gate`queue, gate`active, gate`live, gate`granted, gate`arrivals
      ensures Others(gate) && gate.Valid()
      ensures outcome != Thrown && (outcome == Full <==> |old(gate.queue)| >= 256)
      ensures if outcome == Full then unchanged(gate) else !gate.Idle()
      ensures outcome == Accepted ==> if old(gate.active) == 0
        then gate.live == old(gate.live) + {job} && gate.queue == []
        else gate.live == old(gate.live) && gate.queue == old(gate.queue) + [job]
    {
      var idle;
      outcome, idle := gate.Acquire(job, false);
    }

    /** A gate that has just gone idle is forgotten, unless another one has taken its place. */
    method Forget(gate: Gate, idle: bool)
      requires Others(gate) && gate in all && gate.Valid() && idle == gate.Idle()
      requires !gate.Idle() ==> gate.relay in gates && gates[gate.relay] == gate
      modifies `gates
      ensures Valid()
      ensures gates == if idle && gate.relay in old(gates) && old(gates)[gate.relay] == gate
        then old(gates) - {gate.relay} else old(gates)
    {
      if idle && gate.relay in gates && gates[gate.relay] == gate { gates := gates - {gate.relay}; }
    }

    /** A lease of any gate, current or long forgotten, is given back; a second time nothing
        happens. */
    method Release(gate: Gate, job: int)
      requires Valid() && gate in all
      modifies `gates, gate`queue, gate`active, gate`live, gate`granted
      ensures Valid()
      ensures job !in old(gate.live) ==> gates == old(gates) && unchanged(gate)
      ensures job !in gate.live
      ensures job in old(gate.live) && old(gate.queue) == [] ==> gate.relay !in gates && gate.live == {}
      ensures job in old(gate.live) && old(gate.queue) != [] ==> gates == old(gates)
      ensures job in old(gate.live) && old(gate.queue) != [] ==>
        gate.live == {old(gate.queue)[0]} && gate.queue == old(gate.queue)[1..]
    {
      var idle := gate.Release(job);
      if idle { Forget(gate, true); }
    }

    method Abort(gate: Gate, job: int)
      requires Valid() && gate in all
      modifies `gates, gate`queue, gate`active, gate`live, gate`granted, gate`aborted
      ensures Valid() && gate.live == old(gate.live)
      ensures gate.queue == Kept(old(gate.queue), {job})
    {
      var idle := gate.Abort(job);
      if idle {
        // Never: whoever was waiting was waiting for a holder.
        assert false;
      }
    }
  }

}
