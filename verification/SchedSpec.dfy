/**
 The scheduler of kernel/scheduler/scheduler.c as a state machine over a stable
 sorted queue, and what holds over every run of it.
 */
module SchedSpec {
  import opened Words
  import opened Threads

  // update and weight_delta (cfs.c:15-26), in 64-bit arithmetic
  function Charged(v: u64, start: u64, now: u64, prio: u8): u64 {
    (v + (((now - start) % TWO_64) * (1 + prio)) % TWO_64) % TWO_64
  }

  // What the machine remembers of one thread
  datatype Info = Info(key: u64, start: u64, state: State, saved: IntFrame)

  datatype Sched = Sched(queue: seq<Thread>, current: Thread?, idle: Thread, info: map<Thread, Info>)

  // One timer interrupt: the clock, the interrupted frame, and whether the
  // interrupted thread has died since it was switched in
  datatype Tick = Tick(now: u64, frame: IntFrame, exits: bool)

  function Key(s: Sched, t: Thread): int {
    if t in s.info then s.info[t].key else 0
  }

  // A thread other than the idle one was interrupted
  predicate Busy(s: Sched) {
    s.current != null && s.current != s.idle
  }

  // ---------- the queue

  // Place `t` after the last thread whose key is not greater
  function Enqueue(q: seq<Thread>, s: Sched, t: Thread): seq<Thread> {
    if q == [] then [t]
    else if Key(s, t) < Key(s, q[0]) then [t] + q
    else [q[0]] + Enqueue(q[1..], s, t)
  }

  function Drop(q: seq<Thread>, t: Thread): seq<Thread> {
    if q == [] then [] else if q[0] == t then q[1..] else [q[0]] + Drop(q[1..], t)
  }

  // ---------- one call of schedule

  // The interrupted thread goes back to the queue (scheduler.c:30-33)
  function Requeued(s: Sched, tick: Tick): Sched
    requires Busy(s) && s.current in s.info
  {
    var i := s.info[s.current];
    var key := Charged(i.key, i.start, tick.now, s.current.prio);
    var s1 := s.(info := s.info[s.current := i.(key := key, state := Waiting, saved := tick.frame)]);
    s1.(queue := Enqueue(s.queue, s1, s.current))
  }

  // The queue that cfs_dequeue works on
  function BeforePick(s: Sched, tick: Tick): Sched {
    if !Busy(s) || s.current !in s.info then s
    else if tick.exits then s.(info := s.info - {s.current})
    else if s.queue == [] then s
    else Requeued(s, tick)
  }

  // The new head leaves the queue, if cfs_dequeue finds it (scheduler.c:48-51)
  function Picked(s: Sched, next: Thread, found: bool): Sched {
    s.(queue := if found then Drop(s.queue, next) else s.queue,
       current := next,
       info := if next in s.info then s.info[next := s.info[next].(state := Active)] else s.info)
  }

  function After(s: Sched, tick: Tick, found: bool): Sched {
    var s1 := BeforePick(s, tick);
    if s.queue != [] then Picked(s1, s.queue[0], found)
    else if Busy(s) && !tick.exits then s1
    else s1.(current := s.idle)
  }

  // No other queued thread has the key of `t`
  predicate Distinct(s: Sched, t: Thread) {
    forall u :: u in s.queue && Key(s, u) == Key(s, t) ==> u == t
  }

  // cfs_dequeue finds the head when no key ties with it
  predicate Step(s: Sched, tick: Tick, found: bool, s': Sched) {
    && s' == After(s, tick, found)
    && (s.queue != [] && Distinct(BeforePick(s, tick), s.queue[0]) ==> found)
  }

  // ---------- invariant

  predicate SortedBy(q: seq<Thread>, s: Sched) {
    q == [] || ((forall u :: u in q[1..] ==> Key(s, q[0]) <= Key(s, u)) && SortedBy(q[1..], s))
  }

  predicate NoDup(q: seq<Thread>) {
    forall t :: t in q ==> multiset(q)[t] == 1
  }

  predicate Wf(s: Sched) {
    && SortedBy(s.queue, s) && NoDup(s.queue)
    && (forall t :: t in s.queue ==> t in s.info && t != s.idle && t != s.current)
    && (Busy(s) ==> s.current in s.info)
  }

  lemma {:induction false} EnqueueContents(q: seq<Thread>, s: Sched, t: Thread)
    ensures multiset(Enqueue(q, s, t)) == multiset(q) + multiset{t}
  {
    if q != [] && Key(s, t) >= Key(s, q[0]) {
      EnqueueContents(q[1..], s, t);
      assert q == [q[0]] + q[1..];
    }
  }

  lemma EnqueueIn(q: seq<Thread>, s: Sched, t: Thread, u: Thread)
    ensures u in Enqueue(q, s, t) <==> u in q || u == t
  {
  }

  lemma {:induction false} EnqueueSorted(q: seq<Thread>, s: Sched, t: Thread)
    requires SortedBy(q, s)
    ensures SortedBy(Enqueue(q, s, t), s)
  {
    if q != [] && Key(s, t) >= Key(s, q[0]) {
      EnqueueSorted(q[1..], s, t);
      forall u | u in Enqueue(q[1..], s, t) ensures Key(s, q[0]) <= Key(s, u) {
        EnqueueIn(q[1..], s, t, u);
      }
    }
  }

  // Where Enqueue puts the thread, in terms of positions
  lemma {:induction false} EnqueueAt(q: seq<Thread>, s: Sched, t: Thread, pos: nat)
    requires pos <= |q|
    requires forall i :: 0 <= i < pos ==> Key(s, q[i]) <= Key(s, t)
    requires forall i :: pos <= i < |q| ==> Key(s, t) < Key(s, q[i])
    ensures Enqueue(q, s, t) == q[..pos] + [t] + q[pos..]
  {
    if pos > 0 {
      EnqueueAt(q[1..], s, t, pos - 1);
      assert q[..pos] == [q[0]] + q[1..][..pos - 1];
      assert q[1..][pos - 1..] == q[pos..];
    }
  }

  lemma {:induction false} DropAt(q: seq<Thread>, t: Thread, pos: nat)
    requires pos < |q| && q[pos] == t && t !in q[..pos]
    ensures Drop(q, t) == q[..pos] + q[pos + 1..]
  {
    if pos > 0 {
      DropAt(q[1..], t, pos - 1);
      assert q[..pos] == [q[0]] + q[1..][..pos - 1];
      assert q[1..][pos..] == q[pos + 1..];
    }
  }

  lemma {:induction false} DropContents(q: seq<Thread>, t: Thread)
    requires t in q
    ensures multiset(Drop(q, t)) + multiset{t} == multiset(q)
  {
    assert q == [q[0]] + q[1..];
    if q[0] != t { DropContents(q[1..], t); }
  }

  lemma DropIn(q: seq<Thread>, t: Thread, u: Thread)
    requires t in q && NoDup(q)
    ensures u in Drop(q, t) <==> u in q && u != t
  {
    DropContents(q, t);
    assert u in Drop(q, t) <==> u in multiset(Drop(q, t));
    assert u in q <==> u in multiset(q);
    assert multiset(q)[t] == 1;
  }

  lemma {:induction false} DropSorted(q: seq<Thread>, s: Sched, t: Thread)
    requires SortedBy(q, s) && t in q
    ensures SortedBy(Drop(q, t), s)
  {
    if q[0] != t {
      DropSorted(q[1..], s, t);
      DropContents(q[1..], t);
      forall u | u in Drop(q[1..], t) ensures Key(s, q[0]) <= Key(s, u) {
        assert u in multiset(Drop(q[1..], t));
        assert u in multiset(q[1..]);
      }
    }
  }

  lemma {:induction false} SortedSame(q: seq<Thread>, s: Sched, s': Sched)
    requires SortedBy(q, s) && forall u :: u in q ==> Key(s', u) == Key(s, u)
    ensures SortedBy(q, s')
  {
    if q != [] { SortedSame(q[1..], s, s'); }
  }

  lemma RequeuedWf(s: Sched, tick: Tick)
    requires Wf(s) && Busy(s)
    ensures var s1 := Requeued(s, tick);
      && SortedBy(s1.queue, s1) && NoDup(s1.queue)
      && multiset(s1.queue) == multiset(s.queue) + multiset{s.current}
      && (forall u :: u in s1.queue <==> u in s.queue || u == s.current)
  {
    var s1 := Requeued(s, tick);
    var s2 := s.(info := s1.info);
    SortedSame(s.queue, s, s2);
    EnqueueSorted(s.queue, s2, s.current);
    SortedSame(s1.queue, s2, s1);
    EnqueueContents(s.queue, s2, s.current);
    forall u ensures u in s1.queue <==> u in s.queue || u == s.current {
      EnqueueIn(s.queue, s2, s.current, u);
    }
    forall u | u in s1.queue ensures multiset(s1.queue)[u] == 1 {
      assert u in s.queue ==> multiset(s.queue)[u] == 1;
    }
  }

  // ---------- admission

  // run_proc (process.c:182-188) of one thread: its start time is zero, then it is charged and queued
  function Admitted(s: Sched, t: Thread, i: Info, now: u64): Sched {
    var s1 := s.(info := s.info[t := i.(key := Charged(i.key, 0, now, t.prio), start := 0)]);
    s1.(queue := Enqueue(s.queue, s1, t))
  }

  lemma AdmittedWf(s: Sched, t: Thread, i: Info, now: u64)
    requires Wf(s) && t !in s.info && t != s.idle
    ensures Wf(Admitted(s, t, i, now))
    ensures multiset(Admitted(s, t, i, now).queue) == multiset(s.queue) + multiset{t}
  {
    hide SortedBy, Charged, Enqueue;
    var s' := Admitted(s, t, i, now);
    var s1 := s.(info := s'.info);
    SortedSame(s.queue, s, s1);
    EnqueueSorted(s.queue, s1, t);
    SortedSame(s'.queue, s1, s');
    EnqueueContents(s.queue, s1, t);
    forall u ensures u in s'.queue <==> u in s.queue || u == t {
      EnqueueIn(s.queue, s1, t, u);
    }
    forall u | u in s'.queue ensures multiset(s'.queue)[u] == 1 {
      assert u in s.queue ==> multiset(s.queue)[u] == 1;
    }
  }

  // ---------- one call keeps the invariant

  // The queue before the pick: the old one, and the interrupted thread if it goes back
  lemma BeforePickWf(s: Sched, tick: Tick)
    requires Wf(s)
    ensures var s1 := BeforePick(s, tick); var back := Busy(s) && !tick.exits && s.queue != [];
      && SortedBy(s1.queue, s1) && NoDup(s1.queue)
      && multiset(s1.queue) == multiset(s.queue) + (if back then multiset{s.current} else multiset{})
      && (forall u :: u in s1.queue <==> u in s.queue || (back && u == s.current))
      && (forall u :: u in s1.queue ==> u in s1.info)
  {
    if Busy(s) && !tick.exits && s.queue != [] {
      RequeuedWf(s, tick);
    } else {
      SortedSame(s.queue, s, BeforePick(s, tick));
    }
  }

  lemma {:induction false} EnqueueKeys(q: seq<Thread>, s: Sched, s': Sched, t: Thread)
    requires s.info == s'.info
    ensures Enqueue(q, s, t) == Enqueue(q, s', t)
  {
    if q != [] { EnqueueKeys(q[1..], s, s', t); }
  }

  lemma PickedWf(s: Sched, next: Thread)
    requires SortedBy(s.queue, s) && NoDup(s.queue) && next in s.queue
    requires forall u :: u in s.queue ==> u in s.info && u != s.idle
    ensures Wf(Picked(s, next, true))
  {
    var s' := Picked(s, next, true);
    DropContents(s.queue, next);
    DropSorted(s.queue, s, next);
    SortedSame(s'.queue, s, s');
    forall u | u in s'.queue ensures u in s.queue && u != next && multiset(s'.queue)[u] == 1 {
      DropIn(s.queue, next, u);
      assert multiset(s.queue)[u] == 1;
    }
  }

  /** Every call that finds what it picked keeps the queue sorted, free of
      duplicates and without the current thread. */
  lemma StepWf(s: Sched, tick: Tick)
    requires Wf(s)
    ensures Wf(After(s, tick, true))
  {
    hide SortedBy, NoDup, Enqueue, Drop;
    BeforePickWf(s, tick);
    if s.queue != [] {
      assert s.queue[0] in s.queue;
      PickedWf(BeforePick(s, tick), s.queue[0]);
    } else {
      SortedSame(s.queue, s, After(s, tick, true));
    }
  }

  // A call that misses its pick leaves the current thread queued
  lemma MissNotWf(s: Sched, tick: Tick)
    requires Wf(s)
    ensures s.queue != [] ==> After(s, tick, false).current in After(s, tick, false).queue
    ensures s.queue != [] ==> !Wf(After(s, tick, false))
  {
    hide SortedBy, NoDup, Enqueue;
    BeforePickWf(s, tick);
    assert s.queue != [] ==> s.queue[0] in s.queue;
  }

  // ---------- conservation

  // The threads the scheduler still has: queued and running
  function Population(s: Sched): multiset<Thread> {
    multiset(s.queue) + if Busy(s) then multiset{s.current} else multiset{}
  }

  /** A call drops a dead current thread and changes nothing else, unless the
      dequeue misses; then the picked thread is counted twice. */
  lemma Conserved(s: Sched, tick: Tick, found: bool)
    requires Wf(s)
    ensures var dead := if Busy(s) && tick.exits then multiset{s.current} else multiset{};
      var twice := if s.queue != [] && !found then multiset{s.queue[0]} else multiset{};
      Population(After(s, tick, found)) == Population(s) - dead + twice
  {
    var s1 := BeforePick(s, tick);
    BeforePickWf(s, tick);
    if s.queue != [] {
      var next := s.queue[0];
      assert next in s.queue && next in s1.queue;
      DropContents(s1.queue, next);
    }
  }

  // What a call records of the threads: the one switched in, the one that goes back, and all others
  lemma RecordsAfter(s: Sched, tick: Tick, found: bool)
    requires Wf(s)
    ensures var s' := After(s, tick, found); var back := Busy(s) && !tick.exits && s.queue != [];
      && (s.queue != [] ==>
            && s'.current == s.queue[0] && s.queue[0] in s.info && s.queue[0] in s'.info
            && s'.info[s.queue[0]] == s.info[s.queue[0]].(state := Active))
      && (back ==>
            && s.current in s.info && s.current in s'.info
            && var i, t := s.info[s.current], s.current;
               s'.info[t] == Info(Charged(i.key, i.start, tick.now, t.prio), i.start, Waiting, tick.frame))
      && s'.info.Keys == s.info.Keys - (if Busy(s) && tick.exits then {s.current} else {})
      && (forall t :: t in s'.info && (s.queue != [] ==> t != s.queue[0]) && (back ==> t != s.current) ==>
            s'.info[t] == s.info[t])
  {
    hide SortedBy, NoDup, Enqueue, Drop, Charged;
    assert s.queue != [] ==> s.queue[0] in s.queue;
  }

  // ---------- contexts

  // The frame schedule leaves for the return from the interrupt (scheduler.c:39-59)
  function Resumed(s: Sched, tick: Tick, rsp0: u64): IntFrame {
    if s.queue != [] && s.queue[0] in s.info then s.info[s.queue[0]].saved.(rsp := tick.frame.rsp)
    else if Busy(s) && !tick.exits then tick.frame
    else tick.frame.(iretRip := if s.idle in s.info then s.info[s.idle].saved.iretRip else 0, iretRsp := rsp0)
  }

  lemma Undisturbed(s: Sched, tick: Tick, found: bool, t: Thread)
    requires t in s.info && t != s.current
    ensures var s' := After(s, tick, found);
      t in s'.info && s'.info[t].saved == s.info[t].saved && s'.info[t].key == s.info[t].key
  {
  }

  predicate IsRun(ss: seq<Sched>, ticks: seq<Tick>, founds: seq<bool>) {
    && |ss| == |ticks| + 1 && |founds| == |ticks|
    && forall i :: 0 <= i < |ticks| ==> Step(ss[i], ticks[i], founds[i], ss[i + 1])
  }

  // What happens to the scheduler: a call of schedule, the admission of a thread by run_proc, or
  // somebody's mark that a thread is dead
  datatype Event = Call(tick: Tick, found: bool) | Admission(t: Thread, i: Info, now: u64) | Death(t: Thread)

  // The thread on the CPU is marked dead
  predicate Dying(s: Sched) {
    Busy(s) && s.current in s.info && s.info[s.current].state == Dead
  }

  predicate Happens(s: Sched, e: Event, s': Sched) {
    match e
    case Call(tick, found) => Step(s, tick, found, s') && tick.exits == Dying(s)
    case Admission(t, i, now) => t !in s.info && t != s.idle && s' == Admitted(s, t, i, now)
    case Death(t) => t in s.info && s' == s.(info := s.info[t := s.info[t].(state := Dead)])
  }

  predicate IsHistory(ss: seq<Sched>, es: seq<Event>) {
    |ss| == |es| + 1 && forall i :: 0 <= i < |es| ==> Happens(ss[i], es[i], ss[i + 1])
  }

  // Thread `t` was interrupted by event `i` and has not run since, up to state `j`
  predicate Out(ss: seq<Sched>, es: seq<Event>, t: Thread, i: nat, j: nat) {
    && IsHistory(ss, es) && i < j < |ss| && es[i].Call?
    && Busy(ss[i]) && ss[i].current == t && t in ss[i].info && !es[i].tick.exits && ss[i].queue != []
    && forall m :: i < m <= j ==> ss[m].current != t
  }

  /** A thread switched out in call `i` and next on the CPU after call `j` resumes with the frame of
      call `i`, but for registers.rsp, whatever calls and admissions lie between. */
  lemma ResumesWhatWasSaved(ss: seq<Sched>, es: seq<Event>, t: Thread, i: nat, j: nat, rsp0: u64)
    requires Out(ss, es, t, i, j) && j < |es| && es[j].Call? && ss[j].queue != [] && ss[j].queue[0] == t
    ensures t in ss[j].info
    ensures Resumed(ss[j], es[j].tick, rsp0) == es[i].tick.frame.(rsp := es[j].tick.frame.rsp)
  {
    StillSaved(ss, es, t, i, j);
  }

  lemma {:induction false} StillSaved(ss: seq<Sched>, es: seq<Event>, t: Thread, i: nat, j: nat)
    requires Out(ss, es, t, i, j)
    ensures t in ss[j].info && ss[j].info[t].saved == es[i].tick.frame
    decreases j
  {
    hide Happens;
    assert Happens(ss[j - 1], es[j - 1], ss[(j - 1) + 1]);
    if j > i + 1 {
      StillSaved(ss, es, t, i, j - 1);
      StaysSaved(ss[j - 1], es[j - 1], ss[j], t);
    } else {
      GetsSaved(ss[i], es[i], ss[j]);
    }
  }

  lemma GetsSaved(s: Sched, e: Event, s': Sched)
    requires Happens(s, e, s') && e.Call? && Busy(s) && s.current in s.info && !e.tick.exits && s.queue != []
    requires s'.current != s.current
    ensures s.current in s'.info && s'.info[s.current].saved == e.tick.frame
  {
  }

  lemma StaysSaved(s: Sched, e: Event, s': Sched, t: Thread)
    requires Happens(s, e, s') && t in s.info && t != s.current
    ensures t in s'.info && s'.info[t].saved == s.info[t].saved
  {
    if e.Call? { Undisturbed(s, e.tick, e.found, t); }
  }

  // ---------- who leaves

  // Thread `t` is queued or running, and if it is running it is not marked dead
  predicate Alive(s: Sched, t: Thread) {
    && t in s.info && t != s.idle && (t in s.queue || s.current == t)
    && (s.current == t ==> s.info[t].state != Dead)
  }

  lemma {:induction false} DropKeeps(q: seq<Thread>, t: Thread, u: Thread)
    requires u in q && u != t
    ensures u in Drop(q, t)
  {
    if q[0] != t && q[0] != u { DropKeeps(q[1..], t, u); }
  }

  // The thread is still known and queued when the next one is picked
  lemma AliveBefore(s: Sched, tick: Tick, t: Thread)
    requires Alive(s, t) && tick.exits == Dying(s)
    ensures var s1 := BeforePick(s, tick);
      && t in s1.info && s1.current == s.current && s1.idle == s.idle
      && (s.queue != [] ==> t in s1.queue) && (s.queue == [] ==> s1.info[t] == s.info[t])
  {
    if s.queue != [] && Busy(s) && s.current in s.info && !tick.exits {
      var s1 := Requeued(s, tick);
      EnqueueIn(s.queue, s.(info := s1.info), s.current, t);
    }
  }

  lemma AliveCall(s: Sched, e: Event, s': Sched, t: Thread)
    requires Alive(s, t) && e.Call? && Happens(s, e, s')
    ensures Alive(s', t)
  {
    hide Drop, Enqueue, BeforePick, Distinct;
    AliveBefore(s, e.tick, t);
    var s1 := BeforePick(s, e.tick);
    if s.queue != [] && s.queue[0] != t && e.found { DropKeeps(s1.queue, s.queue[0], t); }
  }

  lemma AliveAdmission(s: Sched, e: Event, s': Sched, t: Thread)
    requires Alive(s, t) && e.Admission? && Happens(s, e, s')
    ensures Alive(s', t)
  {
    EnqueueIn(s.queue, s.(info := s'.info), e.t, t);
  }

  /** A thread that nobody marks dead while it runs is never dropped, whatever calls, admissions and
      other deaths there are; a mark on a queued thread is lost when it is switched in. */
  lemma {:induction false} NeverDropped(ss: seq<Sched>, es: seq<Event>, t: Thread, i: nat, j: nat)
    requires IsHistory(ss, es) && i <= j < |ss| && Alive(ss[i], t)
    requires forall k :: i <= k < j && es[k] == Death(t) ==> ss[k].current != t
    ensures Alive(ss[j], t) && t in Population(ss[j])
    decreases j
  {
    hide Happens;
    if i < j {
      NeverDropped(ss, es, t, i, j - 1);
      var s, e := ss[j - 1], es[j - 1];
      assert Happens(s, e, ss[(j - 1) + 1]);
      match e
      case Call(_, _) => AliveCall(s, e, ss[j], t);
      case Admission(_, _, _) => AliveAdmission(s, e, ss[j], t);
      case Death(_) => AliveDeath(s, e, ss[j], t);
    }
  }

  lemma AliveDeath(s: Sched, e: Event, s': Sched, t: Thread)
    requires Alive(s, t) && e.Death? && Happens(s, e, s') && (e.t == t ==> s.current != t)
    ensures Alive(s', t)
  {
  }

  /** A call drops a thread exactly if it was running and marked dead, and then forgets it. */
  lemma DroppedExact(s: Sched, e: Event, s': Sched, t: Thread)
    requires Wf(s) && e.Call? && Happens(s, e, s') && t in Population(s)
    ensures t !in Population(s') <==> s.current == t && s.info[t].state == Dead
    ensures t !in Population(s') <==> t !in s'.info
  {
    hide Happens, SortedBy, NoDup;
    assert t in s.queue ==> t in s.info && t != s.current;
    if s.current == t && s.info[t].state == Dead { DeadGone(s, e, s'); } else { AliveCall(s, e, s', t); }
  }

  lemma DeadGone(s: Sched, e: Event, s': Sched)
    requires Wf(s) && e.Call? && Happens(s, e, s') && Dying(s)
    ensures s.current !in Population(s') && s.current !in s'.info
  {
    hide Drop, Enqueue, SortedBy, NoDup, Distinct;
    Conserved(s, e.tick, e.found);
    assert s.queue != [] ==> s.queue[0] in s.queue;
    assert s.current !in s.queue;
  }

  // The thread on the CPU is active and the queued ones wait
  predicate Marked(s: Sched) {
    && (Busy(s) && s.current in s.info ==> s.info[s.current].state == Active)
    && forall t :: t in s.queue && t in s.info ==> s.info[t].state == Waiting
  }

  /** What schedule records of the threads stays true: the one on the CPU is active and all queued ones
      wait, over every call that finds its pick and every admission of a waiting thread. */
  lemma MarkedKept(s: Sched, e: Event, s': Sched)
    requires Wf(s) && Marked(s) && Happens(s, e, s') && !e.Death?
    requires e.Call? ==> e.found
    requires e.Admission? ==> e.i.state == Waiting
    ensures Marked(s') && Wf(s')
  {
    if e.Call? { MarkedCall(s, e.tick); } else { MarkedAdmission(s, e, s'); }
  }

  lemma MarkedCall(s: Sched, tick: Tick)
    requires Wf(s) && Marked(s) && tick.exits == Dying(s)
    ensures Marked(After(s, tick, true)) && Wf(After(s, tick, true))
  {
    hide Drop, Enqueue, SortedBy, NoDup;
    StepWf(s, tick);
    BeforePickWf(s, tick);
    var s1 := BeforePick(s, tick);
    if s.queue != [] {
      assert s.queue[0] in s.queue;
      forall t ensures t in Drop(s1.queue, s.queue[0]) <==> t in s1.queue && t != s.queue[0] {
        DropIn(s1.queue, s.queue[0], t);
      }
    }
  }

  lemma MarkedAdmission(s: Sched, e: Event, s': Sched)
    requires Wf(s) && Marked(s) && e.Admission? && Happens(s, e, s') && e.i.state == Waiting
    ensures Marked(s') && Wf(s')
  {
    hide Enqueue, SortedBy, NoDup;
    AdmittedWf(s, e.t, e.i, e.now);
    forall t ensures t in s'.queue <==> t in s.queue || t == e.t {
      EnqueueIn(s.queue, s.(info := s'.info), e.t, t);
    }
  }

  // ---------- no starvation

  // How far `k` lies below `v`, counting an equal key as one
  function Lag(v: int, k: int): nat { if k <= v then v + 1 - k else 0 }

  function QueueLag(q: seq<Thread>, s: Sched, w: Thread): nat {
    if q == [] then 0
    else (if q[0] == w then 0 else Lag(Key(s, w), Key(s, q[0]))) + QueueLag(q[1..], s, w)
  }

  function CurrentLag(s: Sched, w: Thread): nat {
    if Busy(s) then Lag(Key(s, w), Key(s, s.current)) else 0
  }

  /** Calls of schedule that `w` may still have to wait: one unit for every unit
      of vruntime by which another thread lags behind it, and one more if the
      current thread does not. */
  function Wait(s: Sched, w: Thread): nat {
    QueueLag(s.queue, s, w) + CurrentLag(s, w) + if CurrentLag(s, w) == 0 then 1 else 0
  }

  // A requeue charges at least one unit without wrapping
  predicate Smooth(s: Sched, tick: Tick) {
    Busy(s) && s.current in s.info && !tick.exits ==>
      var i := s.info[s.current];
      i.start < tick.now && i.key + (tick.now - i.start) * (1 + s.current.prio) < TWO_64
  }

  lemma ChargeGrows(v: u64, start: u64, now: u64, prio: u8)
    requires start < now && v + (now - start) * (1 + prio) < TWO_64
    ensures Charged(v, start, now, prio) == v + (now - start) * (1 + prio) > v
  {
    GrowsBy(now - start, 1 + prio);
    SmallMod((now - start) * (1 + prio));
    SmallMod(now - start);
  }

  /** A charge is v + (now - start) * (1 + prio) modulo 2^64, also when the clock is behind the start time. */
  lemma ChargeModulo(v: u64, start: u64, now: u64, prio: u8)
    ensures Charged(v, start, now, prio) == (v + (now - start) * (1 + prio)) % TWO_64
  {
    var d, k := now - start, 1 + prio;
    var x := (d % TWO_64) * k;
    assert d % TWO_64 == d - TWO_64 * (d / TWO_64);
    assert x == d * k - TWO_64 * (d / TWO_64 * k);
    ModShift(v + x, d / TWO_64 * k);
    ModShift(v + x % TWO_64, x / TWO_64);
  }

  lemma ModShift(x: int, q: int)
    ensures (x + TWO_64 * q) % TWO_64 == x % TWO_64
  {
  }

  lemma GrowsBy(d: int, p: int)
    requires d >= 1 && p >= 1
    ensures d * p >= 1
  {
  }

  lemma SmallMod(x: int)
    requires 0 <= x < TWO_64
    ensures x % TWO_64 == x
  {
  }

  lemma {:induction false} LagEnqueue(q: seq<Thread>, s: Sched, t: Thread, w: Thread)
    requires t != w
    ensures QueueLag(Enqueue(q, s, t), s, w) == QueueLag(q, s, w) + Lag(Key(s, w), Key(s, t))
  {
    if q != [] && Key(s, t) >= Key(s, q[0]) { LagEnqueue(q[1..], s, t, w); }
  }

  lemma {:induction false} LagDrop(q: seq<Thread>, s: Sched, t: Thread, w: Thread)
    requires t in q && t != w
    ensures QueueLag(Drop(q, t), s, w) + Lag(Key(s, w), Key(s, t)) == QueueLag(q, s, w)
  {
    if q[0] != t { LagDrop(q[1..], s, t, w); }
  }

  lemma {:induction false} LagSame(q: seq<Thread>, s: Sched, s': Sched, w: Thread)
    requires Key(s', w) == Key(s, w) && forall u :: u in q ==> Key(s', u) == Key(s, u)
    ensures QueueLag(q, s', w) == QueueLag(q, s, w)
  {
    if q != [] { LagSame(q[1..], s, s', w); }
  }

  lemma HeadLeast(s: Sched, w: Thread)
    requires Wf(s) && w in s.queue
    ensures Key(s, s.queue[0]) <= Key(s, w)
  {
  }

  // The requeue of the interrupted thread lowers the queue-and-current lag if there was any
  lemma RequeueLag(s: Sched, tick: Tick, w: Thread)
    requires Wf(s) && w in s.queue && Smooth(s, tick)
    ensures var s1 := BeforePick(s, tick);
      && (forall u :: u in s.queue ==> Key(s1, u) == Key(s, u))
      && QueueLag(s1.queue, s1, w) <=
           QueueLag(s.queue, s, w) + if CurrentLag(s, w) == 0 then 0 else CurrentLag(s, w) - 1
  {
    hide SortedBy, NoDup, QueueLag, Enqueue, Charged;
    var s1 := BeforePick(s, tick);
    LagSame(s.queue, s, s1, w);
    if Busy(s) && !tick.exits {
      var i := s.info[s.current];
      ChargeGrows(i.key, i.start, tick.now, s.current.prio);
      var s2 := s.(info := s1.info);
      EnqueueKeys(s.queue, s2, s1, s.current);
      LagEnqueue(s.queue, s1, s.current, w);
    }
  }

  // The head leaves the queue and becomes current: its lag moves with it
  lemma PickedLag(s: Sched, next: Thread, w: Thread)
    requires next in s.queue && next != w && next != s.idle && Key(s, next) <= Key(s, w)
    ensures var s' := Picked(s, next, true);
      Key(s', w) == Key(s, w) && Wait(s', w) == QueueLag(s.queue, s, w)
  {
    var s' := Picked(s, next, true);
    LagDrop(s.queue, s, next, w);
    forall u ensures Key(s', u) == Key(s, u) {}
    LagSame(s'.queue, s, s', w);
  }

  lemma StepLag(s: Sched, tick: Tick, w: Thread)
    requires Wf(s) && w in s.queue && w != s.queue[0] && Smooth(s, tick)
    ensures var s' := After(s, tick, true); w in s'.queue && Wait(s', w) < Wait(s, w)
  {
    var s1, next := BeforePick(s, tick), s.queue[0];
    BeforePickWf(s, tick);
    DropIn(s1.queue, next, w);
    RequeueLag(s, tick, w);
    HeadLeast(s, w);
    PickedLag(s1, next, w);
  }

  // ... and every call that picks from the queue finds its pick
  predicate AllSmooth(ss: seq<Sched>, ticks: seq<Tick>, founds: seq<bool>)
    requires |ss| == |ticks| + 1 && |founds| == |ticks|
  {
    forall i :: 0 <= i < |ticks| ==> Smooth(ss[i], ticks[i]) && (ss[i].queue != [] ==> founds[i])
  }

  lemma TailRun(ss: seq<Sched>, ticks: seq<Tick>, founds: seq<bool>)
    requires IsRun(ss, ticks, founds) && AllSmooth(ss, ticks, founds) && ticks != []
    ensures IsRun(ss[1..], ticks[1..], founds[1..]) && AllSmooth(ss[1..], ticks[1..], founds[1..])
    ensures Step(ss[0], ticks[0], founds[0], ss[1]) && Smooth(ss[0], ticks[0]) && (ss[0].queue != [] ==> founds[0])
  {
  }

  /** No starvation: on a run without wrap-around in which every call finds its pick, a
      queued thread is on the CPU after at most Wait + 1 calls. */
  lemma {:induction false} NoStarvation(ss: seq<Sched>, ticks: seq<Tick>, founds: seq<bool>, w: Thread)
    requires IsRun(ss, ticks, founds) && Wf(ss[0]) && w in ss[0].queue
    requires AllSmooth(ss, ticks, founds)
    requires |ticks| > Wait(ss[0], w)
    ensures exists i :: 0 < i <= Wait(ss[0], w) + 1 && ss[i].current == w
    decreases |ticks|
  {
    var s, s' := ss[0], ss[1];
    TailRun(ss, ticks, founds);
    if s.queue[0] == w {
      assert s'.current == w;
    } else {
      StepWf(s, ticks[0]);
      StepLag(s, ticks[0], w);
      NoStarvation(ss[1..], ticks[1..], founds[1..], w);
      var i :| 0 < i <= Wait(s', w) + 1 && ss[1..][i].current == w;
      assert ss[i + 1].current == w;
    }
  }
}
