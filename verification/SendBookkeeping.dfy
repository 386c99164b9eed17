/** What the protocol handler remembers: a back-off per node, and the writes that wait for an answer. */
module SendBookkeeping {
  // ---- back-off ----

  const MAX_PACKETS_WITH_ERRORS := 15
  const NUM_PACKETS_TO_WAIT := 60

  datatype Backoff = Backoff(errorTimer: nat, errorPackets: nat)

  const FRESH_NODE := Backoff(0, 0)

  /** A call only attempts to send when no wait is running. */
  predicate Attempts(b: Backoff) {
    b.errorTimer == 0
  }

  /** One call, given whether a send would go through. The counter is compared before it is raised. */
  function AfterCall(b: Backoff, delivered: bool): Backoff {
    if !Attempts(b) then b.(errorTimer := b.errorTimer - 1)
    else if delivered then FRESH_NODE
    else Backoff(if b.errorPackets >= MAX_PACKETS_WITH_ERRORS then NUM_PACKETS_TO_WAIT else 0, b.errorPackets + 1)
  }

  function AfterCalls(b: Backoff, outcomes: seq<bool>): Backoff {
    if outcomes == [] then b else AfterCall(AfterCalls(b, outcomes[..|outcomes| - 1]), outcomes[|outcomes| - 1])
  }

  /** The outcomes of the calls that attempted to send. */
  function AttemptLog(b: Backoff, outcomes: seq<bool>): seq<bool> {
    if outcomes == [] then [] else
    var before := outcomes[..|outcomes| - 1];
    AttemptLog(b, before) + if Attempts(AfterCalls(b, before)) then [outcomes[|outcomes| - 1]] else []
  }

  /** The length of the run of failures a log ends in. */
  function TrailingFailures(log: seq<bool>): nat {
    if log == [] || log[|log| - 1] then 0 else 1 + TrailingFailures(log[..|log| - 1])
  }

  /** Over every mix of outcomes the counter counts consecutive failed attempts, the wait is never
      longer than sixty calls, and it only runs after sixteen failures in a row. */
  lemma {:induction false} WaitsOnlyAfterFailures(outcomes: seq<bool>)
    ensures var b, log := AfterCalls(FRESH_NODE, outcomes), AttemptLog(FRESH_NODE, outcomes);
            && b.errorPackets == TrailingFailures(log)
            && b.errorTimer <= NUM_PACKETS_TO_WAIT
            && (b.errorTimer > 0 ==> TrailingFailures(log) >= MAX_PACKETS_WITH_ERRORS + 1)
  {
    if outcomes != [] {
      var before, last := outcomes[..|outcomes| - 1], outcomes[|outcomes| - 1];
      WaitsOnlyAfterFailures(before);
      var log := AttemptLog(FRESH_NODE, before);
      assert (log + [last])[..|log|] == log;
      assert log + [] == log;
    }
  }

  /** While a wait runs nothing is attempted, whatever the network would have done, and every call takes
      one off the wait. */
  lemma {:induction false} WaitsItOut(b: Backoff, outcomes: seq<bool>)
    requires |outcomes| <= b.errorTimer
    ensures AttemptLog(b, outcomes) == []
    ensures AfterCalls(b, outcomes) == Backoff(b.errorTimer - |outcomes|, b.errorPackets)
  {
    if outcomes != [] {
      WaitsItOut(b, outcomes[..|outcomes| - 1]);
    }
  }

  /** What the next call does, after any mix of outcomes: it waits, or a success clears everything, or the
      sixteenth failure in a row, and every later one, starts a wait of sixty calls. */
  lemma NextCall(outcomes: seq<bool>, delivered: bool)
    ensures var b, failures := AfterCalls(FRESH_NODE, outcomes), TrailingFailures(AttemptLog(FRESH_NODE, outcomes));
            AfterCalls(FRESH_NODE, outcomes + [delivered]) ==
            if b.errorTimer > 0 then Backoff(b.errorTimer - 1, failures)
            else if delivered then Backoff(0, 0)
            else Backoff(if failures + 1 >= 16 then 60 else 0, failures + 1)
  {
    WaitsOnlyAfterFailures(outcomes);
    assert (outcomes + [delivered])[..|outcomes|] == outcomes;
  }

  function Failures(n: nat): (outcomes: seq<bool>)
    ensures |outcomes| == n
  {
    seq(n, _ => false)
  }

  /** When nothing ever goes through: sixteen attempts, then one in every sixty-one calls. */
  lemma {:induction false} AttemptsWhenAllFail(n: nat)
    ensures |AttemptLog(FRESH_NODE, Failures(n))| == if n <= 16 then n else 16 + (n - 16) / 61
    ensures AfterCalls(FRESH_NODE, Failures(n)) ==
            if n < 16 then Backoff(0, n) else Backoff(60 - (n - 16) % 61, 16 + (n - 16) / 61)
  {
    if n > 0 {
      assert Failures(n)[..n - 1] == Failures(n - 1);
      AttemptsWhenAllFail(n - 1);
      if n > 16 {
        Cycle(n - 17);
      }
    }
  }

  lemma Cycle(k: nat)
    ensures k % 61 == 60 ==> (k + 1) % 61 == 0 && (k + 1) / 61 == k / 61 + 1
    ensures k % 61 != 60 ==> (k + 1) % 61 == k % 61 + 1 && (k + 1) / 61 == k / 61
  {
  }

  // ---- pending writes ----

  type Txn = bv32
  type TimerId = int

  /** A write that waits for its acknowledgement, and the timer that was started for it. */
  datatype Write = Write(txn: Txn, timer: TimerId)

  /** The list, its separate counter, the live timers with the txn each will look for, and how many
      sends went through and how many were settled either way. */
  datatype Writes = Writes(pending: seq<Write>, counter: int, timers: map<TimerId, Txn>, sent: nat, acked: nat,
          timedOut: nat)

  const NO_WRITES := Writes([], 0, map[], 0, 0, 0)

  datatype Event = Sent(txn: Txn, id: TimerId) | Acked(txn: Txn) | TimerFired(id: TimerId)

  /** The position of the first write with the txn, or the length. */
  function FirstWith(pending: seq<Write>, txn: Txn): (i: nat)
    ensures i <= |pending|
    ensures i < |pending| ==> pending[i].txn == txn
    ensures forall j :: 0 <= j < i ==> pending[j].txn != txn
  {
    if pending == [] then 0 else if pending[0].txn == txn then 0 else 1 + FirstWith(pending[1..], txn)
  }

  function Without(pending: seq<Write>, i: nat): seq<Write>
    requires i < |pending|
  {
    pending[..i] + pending[i + 1..]
  }

  /** A new timer's id is not that of a live timer, and only live timers fire. */
  predicate CanHappen(w: Writes, e: Event) {
    match e
    case Sent(_, id) => id !in w.timers
    case Acked(_) => true
    case TimerFired(id) => id in w.timers
  }

  function AfterEvent(w: Writes, e: Event): Writes
    requires CanHappen(w, e)
  {
    match e
    case Sent(txn, id) =>
      w.(pending := w.pending + [Write(txn, id)], counter := w.counter + 1, timers := w.timers[id := txn],
              sent := w.sent + 1)
    case Acked(txn) =>
      var i := FirstWith(w.pending, txn);
      if i == |w.pending| then w else
      w.(pending := Without(w.pending, i), counter := w.counter - 1, timers := w.timers - {w.pending[i].timer},
              acked := w.acked + 1)
    case TimerFired(id) =>
      var fired := w.(timers := w.timers - {id});
      var i := FirstWith(w.pending, w.timers[id]);
      if i == |w.pending| then fired else
      fired.(pending := Without(w.pending, i), counter := w.counter - 1, timedOut := w.timedOut + 1)
  }

  /** The totals count what they are named after: sends, acknowledgements of pending writes, and timers
      that fired while a write with their txn was pending. */
  lemma Counted(w: Writes, e: Event)
    requires CanHappen(w, e)
    ensures var w' := AfterEvent(w, e);
            && w'.sent == w.sent + (if e.Sent? then 1 else 0)
            && w'.acked == w.acked + (if e.Acked? && exists p :: p in w.pending && p.txn == e.txn then 1 else 0)
            && w'.timedOut
               == w.timedOut + (if e.TimerFired? && exists p :: p in w.pending && p.txn == w.timers[e.id] then 1 else 0)
  {
    var txn := match e case Sent(t, _) => t case Acked(t) => t case TimerFired(id) => w.timers[id];
    var i := FirstWith(w.pending, txn);
    assert i < |w.pending| ==> w.pending[i] in w.pending;
  }

  /** Whichever write is the first with the txn goes, the others keep their order, and an acknowledgement
      cancels that write's timer, a timer only itself. */
  lemma FirstGoes(w: Writes, e: Event, i: nat)
    requires CanHappen(w, e) && !e.Sent? && i <= |w.pending|
    requires var txn := if e.Acked? then e.txn else w.timers[e.id];
             && (forall j :: 0 <= j < i ==> w.pending[j].txn != txn)
             && (i < |w.pending| ==> w.pending[i].txn == txn)
    ensures var w' := AfterEvent(w, e);
            && w'.pending == w.pending[..i] + (if i < |w.pending| then w.pending[i + 1..] else [])
            && w'.timers == if e.TimerFired? then w.timers - {e.id}
                            else if i < |w.pending| then w.timers - {w.pending[i].timer}
                            else w.timers
  {
    assert w.pending[..|w.pending|] == w.pending;
  }

  function PendingWith(pending: seq<Write>, txn: Txn): nat {
    if pending == [] then 0 else PendingWith(pending[1..], txn) + if pending[0].txn == txn then 1 else 0
  }

  function TimersFor(timers: map<TimerId, Txn>, txn: Txn): set<TimerId> {
    set id | id in timers && timers[id] == txn
  }

  /** The counter is the list's length, every send is accounted for, and no txn has more pending writes
      than live timers. */
  ghost predicate Consistent(w: Writes) {
    && w.counter == |w.pending|
    && w.sent == w.acked + w.timedOut + |w.pending|
    && forall txn :: PendingWith(w.pending, txn) <= |TimersFor(w.timers, txn)|
  }

  /** An acknowledgement whose write remembers a timer that is by now another txn's, and that other txn
      has no timer to spare. */
  predicate CancelsAnothers(w: Writes, e: Event) {
    e.Acked? &&
    var i := FirstWith(w.pending, e.txn);
    i < |w.pending| && w.pending[i].timer in w.timers &&
    var other := w.timers[w.pending[i].timer];
    other != e.txn && PendingWith(w.pending, other) == |TimersFor(w.timers, other)|
  }

  lemma {:induction false} PendingWithConcat(a: seq<Write>, b: seq<Write>, txn: Txn)
    ensures PendingWith(a + b, txn) == PendingWith(a, txn) + PendingWith(b, txn)
  {
    if a == [] {
      assert a + b == b;
    } else {
      assert (a + b)[1..] == a[1..] + b;
      PendingWithConcat(a[1..], b, txn);
    }
  }

  lemma PendingWithout(pending: seq<Write>, i: nat, txn: Txn)
    requires i < |pending|
    ensures PendingWith(pending, txn) == PendingWith(Without(pending, i), txn) + if pending[i].txn == txn then 1 else 0
  {
    assert pending == pending[..i] + ([pending[i]] + pending[i + 1..]);
    PendingWithConcat(pending[..i], [pending[i]] + pending[i + 1..], txn);
    PendingWithConcat([pending[i]], pending[i + 1..], txn);
    PendingWithConcat(pending[..i], pending[i + 1..], txn);
    assert [pending[i]][1..] == [];
  }

  lemma TimersWithout(timers: map<TimerId, Txn>, id: TimerId, txn: Txn)
    ensures |TimersFor(timers - {id}, txn)|
         == |TimersFor(timers, txn)| - if id in timers && timers[id] == txn then 1 else 0
  {
    var now, was := TimersFor(timers - {id}, txn), TimersFor(timers, txn);
    if id in was {
      assert now == was - {id};
    } else {
      assert now == was;
    }
  }

  lemma TimersWith(timers: map<TimerId, Txn>, id: TimerId, t: Txn, txn: Txn)
    requires id !in timers
    ensures |TimersFor(timers[id := t], txn)| == |TimersFor(timers, txn)| + if t == txn then 1 else 0
  {
    if t == txn {
      assert TimersFor(timers[id := t], txn) == TimersFor(timers, txn) + {id};
    } else {
      assert TimersFor(timers[id := t], txn) == TimersFor(timers, txn);
    }
  }

  /** Even when txns collide, every event keeps the bookkeeping consistent except an acknowledgement
      that cancels the last timer another txn has for its writes. */
  lemma EventKeepsConsistent(w: Writes, e: Event)
    requires Consistent(w) && CanHappen(w, e)
    ensures Consistent(AfterEvent(w, e)) <==> !CancelsAnothers(w, e)
  {
    match e
    case Sent(txn, id) => SentKeepsConsistent(w, txn, id);
    case Acked(txn) => AckedKeepsConsistent(w, txn);
    case TimerFired(id) => FiredKeepsConsistent(w, id);
  }

  lemma SentKeepsConsistent(w: Writes, t: Txn, id: TimerId)
    requires Consistent(w) && id !in w.timers
    ensures Consistent(AfterEvent(w, Sent(t, id)))
  {
    var w' := AfterEvent(w, Sent(t, id));
    forall txn
      ensures PendingWith(w'.pending, txn) <= |TimersFor(w'.timers, txn)|
    {
      PendingWithConcat(w.pending, [Write(t, id)], txn);
      assert [Write(t, id)][1..] == [];
      TimersWith(w.timers, id, t, txn);
    }
  }

  lemma AckedKeepsConsistent(w: Writes, t: Txn)
    requires Consistent(w)
    ensures Consistent(AfterEvent(w, Acked(t))) <==> !CancelsAnothers(w, Acked(t))
  {
    var i := FirstWith(w.pending, t);
    if i < |w.pending| {
      var w' := AfterEvent(w, Acked(t));
      forall txn
        ensures PendingWith(w'.pending, txn) <= |TimersFor(w'.timers, txn)|
           <==> !(CancelsAnothers(w, Acked(t)) && txn == w.timers[w.pending[i].timer])
      {
        PendingWithout(w.pending, i, txn);
        TimersWithout(w.timers, w.pending[i].timer, txn);
      }
      if CancelsAnothers(w, Acked(t)) {
        var other := w.timers[w.pending[i].timer];
        assert PendingWith(w'.pending, other) > |TimersFor(w'.timers, other)|;
      }
    }
  }

  lemma FiredKeepsConsistent(w: Writes, id: TimerId)
    requires Consistent(w) && id in w.timers
    ensures Consistent(AfterEvent(w, TimerFired(id)))
  {
    var w' := AfterEvent(w, TimerFired(id));
    var i := FirstWith(w.pending, w.timers[id]);
    forall txn
      ensures PendingWith(w'.pending, txn) <= |TimersFor(w'.timers, txn)|
    {
      TimersWithout(w.timers, id, txn);
      if i < |w.pending| {
        PendingWithout(w.pending, i, txn);
      } else {
        NonePending(w.pending, w.timers[id]);
      }
    }
  }

  lemma {:induction false} NonePending(pending: seq<Write>, txn: Txn)
    requires forall j :: 0 <= j < |pending| ==> pending[j].txn != txn
    ensures PendingWith(pending, txn) == 0
  {
    if pending != [] {
      NonePending(pending[1..], txn);
    }
  }

  // ---- whole runs ----

  ghost predicate IsRun(states: seq<Writes>, events: seq<Event>) {
    && |states| == |events| + 1 && states[0] == NO_WRITES
    && forall k :: 0 <= k < |events| ==>
        CanHappen(states[k], events[k]) && states[k + 1] == AfterEvent(states[k], events[k])
  }

  ghost predicate NoneCancelsAnothers(states: seq<Writes>, events: seq<Event>) {
    |states| == |events| + 1 && forall k :: 0 <= k < |events| ==> !CancelsAnothers(states[k], events[k])
  }

  lemma {:induction false} RunIsConsistent(states: seq<Writes>, events: seq<Event>, k: nat)
    requires IsRun(states, events) && NoneCancelsAnothers(states, events) && k < |states|
    ensures Consistent(states[k])
  {
    if k == 0 {
      assert forall txn :: PendingWith([], txn) == 0;
    } else {
      RunIsConsistent(states, events, k - 1);
      EventKeepsConsistent(states[k - 1], events[k - 1]);
    }
  }

  /** A run is consistent throughout exactly when none of its acknowledgements cancels the last timer
      another txn has for its writes. */
  lemma RunsAreConsistent(states: seq<Writes>, events: seq<Event>)
    requires IsRun(states, events)
    ensures (forall k :: 0 <= k < |states| ==> Consistent(states[k])) <==> NoneCancelsAnothers(states, events)
  {
    hide Consistent;
    hide CancelsAnothers;
    hide CanHappen;
    hide AfterEvent;
    if forall k :: 0 <= k < |states| ==> Consistent(states[k]) {
      forall k | 0 <= k < |events|
        ensures !CancelsAnothers(states[k], events[k])
      {
        EventKeepsConsistent(states[k], events[k]);
        assert Consistent(states[k + 1]);
      }
    }
    if NoneCancelsAnothers(states, events) {
      forall k | 0 <= k < |states|
        ensures Consistent(states[k])
      {
        RunIsConsistent(states, events, k);
      }
    }
  }

  /** Once every timer has fired or been cancelled, nothing is pending: every write that went out was
      acknowledged or timed out. */
  lemma NothingIsForgotten(states: seq<Writes>, events: seq<Event>, k: nat)
    requires IsRun(states, events) && NoneCancelsAnothers(states, events) && k < |states| && states[k].timers == map[]
    ensures states[k].pending == [] && states[k].counter == 0
    ensures states[k].sent == states[k].acked + states[k].timedOut
  {
    RunIsConsistent(states, events, k);
    NoTimersNothingPending(states[k]);
  }

  lemma NoTimersNothingPending(w: Writes)
    requires Consistent(w) && w.timers == map[]
    ensures w.pending == []
  {
    NoneCounted(w.pending);
    forall txn
      ensures PendingWith(w.pending, txn) <= 0
    {
      assert TimersFor(w.timers, txn) == {};
    }
  }

  lemma NoneCounted(pending: seq<Write>)
    ensures (forall txn :: PendingWith(pending, txn) == 0) ==> pending == []
  {
    assert pending != [] ==> PendingWith(pending, pending[0].txn) > 0;
  }

  // ---- what a sender can look at ----

  /** A pending write that still remembers the new timer's id has the new write's txn. */
  ghost predicate SafeTimer(w: Writes, e: Event) {
    e.Sent? ==> forall p :: p in w.pending && p.timer == e.id ==> p.txn == e.txn
  }

  ghost predicate SafeTimers(states: seq<Writes>, events: seq<Event>) {
    |states| == |events| + 1 && forall k :: 0 <= k < |events| ==> SafeTimer(states[k], events[k])
  }

  /** A live timer that a pending write remembers is for that write's txn. */
  ghost predicate OwnTimers(w: Writes) {
    forall p :: p in w.pending && p.timer in w.timers ==> w.timers[p.timer] == p.txn
  }

  lemma EventKeepsOwnTimers(w: Writes, e: Event)
    requires OwnTimers(w) && CanHappen(w, e) && SafeTimer(w, e)
    ensures OwnTimers(AfterEvent(w, e)) && !CancelsAnothers(w, e)
  {
    if e.Acked? && FirstWith(w.pending, e.txn) < |w.pending| {
      assert w.pending[FirstWith(w.pending, e.txn)] in w.pending;
    }
  }

  lemma {:induction false} OwnTimersThroughout(states: seq<Writes>, events: seq<Event>, n: nat)
    requires IsRun(states, events) && SafeTimers(states, events) && n <= |events|
    ensures OwnTimers(states[n]) && forall k :: 0 <= k < n ==> !CancelsAnothers(states[k], events[k])
  {
    if n > 0 {
      OwnTimersThroughout(states, events, n - 1);
      EventKeepsOwnTimers(states[n - 1], events[n - 1]);
    }
  }

  /** With safe timer ids no acknowledgement cancels another's timer. */
  lemma SafeTimersSuffice(states: seq<Writes>, events: seq<Event>)
    requires IsRun(states, events) && SafeTimers(states, events)
    ensures NoneCancelsAnothers(states, events)
  {
    OwnTimersThroughout(states, events, |events|);
  }

  // ---- without colliding txns ----

  /** No send uses the txn of a write that is still pending. */
  ghost predicate NoCollision(w: Writes, e: Event) {
    e.Sent? ==> forall p :: p in w.pending ==> p.txn != e.txn
  }

  /** Pending writes and live timers belong together one to one. */
  ghost predicate Paired(w: Writes) {
    && (forall p :: p in w.pending ==> p.timer in w.timers && w.timers[p.timer] == p.txn)
    && (forall id :: id in w.timers ==> Write(w.timers[id], id) in w.pending)
    && (forall i, j :: 0 <= i < j < |w.pending| ==> w.pending[i].txn != w.pending[j].txn)
  }

  lemma WithoutOne(pending: seq<Write>, i: nat, p: Write)
    requires i < |pending| && forall j, k :: 0 <= j < k < |pending| ==> pending[j].txn != pending[k].txn
    ensures p in Without(pending, i) <==> p in pending && p != pending[i]
    ensures forall j, k :: 0 <= j < k < |pending| - 1 ==> Without(pending, i)[j].txn != Without(pending, i)[k].txn
  {
    if j :| 0 <= j < |pending| && pending[j] == p && j != i {
      assert Without(pending, i)[if j < i then j else j - 1] == p;
    }
  }

  lemma Settling(w: Writes, i: nat)
    requires Paired(w) && i < |w.pending|
    ensures Paired(w.(pending := Without(w.pending, i), timers := w.timers - {w.pending[i].timer}))
  {
    var p := w.pending[i];
    var w' := w.(pending := Without(w.pending, i), timers := w.timers - {p.timer});
    assert p in w.pending;
    forall q
      ensures q in w'.pending <==> q in w.pending && q != p
    {
      WithoutOne(w.pending, i, q);
    }
    WithoutOne(w.pending, i, p);
    forall q | q in w'.pending
      ensures q.timer in w'.timers && w'.timers[q.timer] == q.txn
    {
      var j :| 0 <= j < |w.pending| && w.pending[j] == q;
      assert q.txn != p.txn;
    }
  }

  /** Without collisions every pending write's timer is live, so an id that is not live is safe. */
  lemma EventKeepsPaired(w: Writes, e: Event)
    requires Paired(w) && CanHappen(w, e) && NoCollision(w, e)
    ensures SafeTimer(w, e) && Paired(AfterEvent(w, e))
  {
    match e {
      case Sent(txn, id) =>
      case Acked(txn) =>
        var i := FirstWith(w.pending, txn);
        if i < |w.pending| {
          Settling(w, i);
        }
      case TimerFired(id) =>
        var i := OwnWrite(w, id);
        Settling(w, i);
    }
  }

  /** The write that a firing timer settles is the one it was started for. */
  lemma OwnWrite(w: Writes, id: TimerId) returns (i: nat)
    requires Paired(w) && id in w.timers
    ensures i == FirstWith(w.pending, w.timers[id]) < |w.pending| && w.pending[i] == Write(w.timers[id], id)
  {
    i := FirstWith(w.pending, w.timers[id]);
    assert Write(w.timers[id], id) in w.pending;
  }

  /** If no send reuses a txn that is pending, timer ids that are not live are all it takes. */
  lemma {:induction false} NoCollisionsAreSafe(states: seq<Writes>, events: seq<Event>, n: nat)
    requires IsRun(states, events) && n <= |events|
    requires forall k :: 0 <= k < |events| ==> NoCollision(states[k], events[k])
    ensures Paired(states[n]) && forall k :: 0 <= k < n ==> SafeTimer(states[k], events[k])
  {
    if n > 0 {
      NoCollisionsAreSafe(states, events, n - 1);
      EventKeepsPaired(states[n - 1], events[n - 1]);
    }
  }

  // ---- what a reused id can do ----

  const COLLIDING: seq<Event> := [Sent(1, 5), Sent(1, 6), TimerFired(6), Sent(2, 6), Acked(1), TimerFired(5)]

  function Collision(k: nat): Writes {
    if k == 0 then NO_WRITES
    else if k == 1 then Writes([Write(1, 5)], 1, map[5 := 1], 1, 0, 0)
    else if k == 2 then Writes([Write(1, 5), Write(1, 6)], 2, map[5 := 1, 6 := 1], 2, 0, 0)
    else if k == 3 then Writes([Write(1, 6)], 1, map[5 := 1], 2, 0, 1)
    else if k == 4 then Writes([Write(1, 6), Write(2, 6)], 2, map[5 := 1, 6 := 2], 3, 0, 1)
    else if k == 5 then Writes([Write(2, 6)], 1, map[5 := 1], 3, 1, 1)
    else Writes([Write(2, 6)], 1, map[], 3, 1, 1)
  }

  lemma CollisionSends(k: nat)
    requires k == 0 || k == 1 || k == 3
    ensures CanHappen(Collision(k), COLLIDING[k]) && Collision(k + 1) == AfterEvent(Collision(k), COLLIDING[k])
  {
    hide FirstWith;
  }

  lemma CollisionFires(k: nat)
    requires k == 2 || k == 5
    ensures CanHappen(Collision(k), COLLIDING[k]) && Collision(k + 1) == AfterEvent(Collision(k), COLLIDING[k])
  {
    FiredAt(Collision(k), COLLIDING[k].id, if k == 2 then 0 else 1, Collision(k + 1));
    hide AfterEvent;
  }

  lemma CollisionStep(k: nat)
    requires k < 6
    ensures CanHappen(Collision(k), COLLIDING[k]) && Collision(k + 1) == AfterEvent(Collision(k), COLLIDING[k])
  {
    if k == 2 || k == 5 {
      CollisionFires(k);
    } else if k == 4 {
      AckedAt(Collision(4), 1, 0, Collision(5));
    } else {
      CollisionSends(k);
    }
    hide AfterEvent;
    hide FirstWith;
  }

  lemma CollisionCancels()
    ensures CancelsAnothers(Collision(4), Acked(1))
  {
    var w := Collision(4);
    assert TimersFor(w.timers, 2) == {6};
    assert w.pending[1..] == [Write(2, 6)] && [Write(2, 6)][1..] == [];
    assert PendingWith([Write(2, 6)], 2) == 1;
  }

  /** What an unsafe timer id can do. Two writes collide on txn 1; the second one's timer fires first and
      settles the first one's entry. When its id is given to a third write, the acknowledgement of
      the second cancels the third's timer, and the third is pending for ever. */
  lemma ReusedTimerForgets() returns (states: seq<Writes>, events: seq<Event>)
    ensures IsRun(states, events) && !SafeTimers(states, events) && !NoneCancelsAnothers(states, events)
    ensures states[|events|].timers == map[] && states[|events|].pending == [Write(2, 6)]
  {
    events, states := COLLIDING, seq(7, k requires 0 <= k => Collision(k));
    assert Write(1, 6) in Collision(3).pending && !SafeTimer(states[3], events[3]);
    assert Collision(6).timers == map[] && Collision(6).pending == [Write(2, 6)];
    CollisionCancels();
    assert CancelsAnothers(states[4], events[4]);
    hide AfterEvent;
    hide CanHappen;
    forall k | 0 <= k < 6
      ensures CanHappen(states[k], events[k]) && states[k + 1] == AfterEvent(states[k], events[k])
    {
      CollisionStep(k);
      assert states[k] == Collision(k) && states[k + 1] == Collision(k + 1);
    }
  }

  lemma FiredAt(w: Writes, id: TimerId, i: nat, now: Writes)
    requires id in w.timers && FirstWith(w.pending, w.timers[id]) == i <= |w.pending|
    requires now.timers == w.timers - {id} && now.sent == w.sent && now.acked == w.acked
    requires if i < |w.pending|
             then now.pending == Without(w.pending, i) && now.counter == w.counter - 1 && now.timedOut == w.timedOut + 1
             else now.pending == w.pending && now.counter == w.counter && now.timedOut == w.timedOut
    ensures AfterEvent(w, TimerFired(id)) == now
  {
  }

  lemma AckedAt(w: Writes, txn: Txn, i: nat, now: Writes)
    requires FirstWith(w.pending, txn) == i < |w.pending|
    requires now == Writes(Without(w.pending, i), w.counter - 1, w.timers - {w.pending[i].timer}, w.sent, w.acked + 1,
            w.timedOut)
    ensures AfterEvent(w, Acked(txn)) == now
  {
  }
}
