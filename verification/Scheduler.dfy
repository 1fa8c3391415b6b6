/**
 kernel/scheduler/cfs.c and kernel/scheduler/scheduler.c over the linked tree:
 each call of `Schedule` is one step of the machine in SchedSpec.dfy.
 */
module Scheduler {
  import opened Words
  import opened Threads
  import opened RbShape
  import opened RbTree
  import opened SchedSpec
  import Search = RbSearch

  // &kernel_vmm, among the address spaces that threads name
  const KERNEL_VMM: nat := 0

  class Cfs {
    const tree: SchedTree
    var running: u64

    constructor ()
      ensures tree.Valid() && tree.Contents() == [] && running == 0 && fresh(tree) && fresh(tree.repr)
    {
      tree := new SchedTree();
      running := 0;
    }

    ghost function Queue(): seq<Thread>
      reads tree
    {
      tree.Contents()
    }

    ghost predicate Valid()
      reads this, tree, tree.repr, Queue()`vruntime
    {
      tree.Valid()
    }

    // cfs_queue (cfs.c:15-32); a thread is charged before it is inserted
    method Enqueue(t: Thread, now: u64) returns (ghost pos: nat, ghost node: RbNode)
      requires Valid() && t !in Queue()
      modifies this, tree, tree.repr, t`vruntime
      ensures Valid() && fresh(tree.repr - old(tree.repr))
      ensures t.vruntime == Charged(old(t.vruntime), old(t.execStart), now, t.prio)
      ensures running == Wrap(old(running) + 1)
      ensures pos <= |old(Queue())| && Queue() == Inserted(old(Queue()), pos, t)
      ensures forall i :: 0 <= i < pos ==> old(Queue())[i].vruntime <= t.vruntime
      ensures forall i :: pos <= i < |old(Queue())| ==> t.vruntime < old(Queue())[i].vruntime
      ensures tree.tree == Placed(old(SlotCtx(tree.tree, Top, Charged(t.vruntime, t.execStart, now, t.prio))), t, node)
    {
      hide SchedTree.Valid, Logarithmic, FixInsert, SlotCtx;
      ghost var s := Queue();
      assert allocated(s) && allocated(EntsOf(tree.tree));
      var delta := (now - t.execStart) % TWO_64;
      var weighted := (delta * (1 + t.prio)) % TWO_64;
      Search.Listed(tree.tree, t);
      t.vruntime := (t.vruntime + weighted) % TWO_64;
      assert SlotCtx(tree.tree, Top, t.vruntime) ==
        old(SlotCtx(tree.tree, Top, Charged(t.vruntime, t.execStart, now, t.prio)));
      running := Wrap(running + 1);
      ghost var steps, turns, rounds;
      node, pos, steps, turns, rounds := tree.Insert(t);
    }

    // cfs_dequeue (cfs.c:34-37); `running` drops even when nothing is found
    method Dequeue(t: Thread) returns (ghost found: bool, ghost pos: nat)
      requires Valid()
      modifies this, tree, tree.repr
      ensures Valid() && tree.repr <= old(tree.repr)
      ensures running == Wrap(old(running) - 1)
      ensures found <==> old(Finds(tree.tree, t))
      ensures !found ==> Queue() == old(Queue())
      ensures found ==> pos < |old(Queue())| && old(Queue())[pos] == t && Queue() == Removed(old(Queue()), pos)
    {
      hide SchedTree.Valid, Finds, Logarithmic, Wrap;
      assert allocated(Queue()) && allocated(EntsOf(tree.tree));
      running := Wrap(running - 1);
      ghost var steps, turns, rounds;
      found, pos, steps, turns, rounds := tree.Remove(t);
    }

    // cfs_pick_next (cfs.c:46-49): the first of the threads with the least key
    method PickNext() returns (t: Thread?)
      requires Valid()
      ensures t == if Queue() == [] then null else Queue()[0]
      ensures forall u :: u in Queue() ==> t != null && t.vruntime <= u.vruntime
    {
      tree.Cached();
      t := if tree.leftmost != null then tree.leftmost.se else null;
    }
  }

  // The tree after rb_insert of `t` with the new node `node` at the place `k`
  function Placed(k: Ctx, t: Thread, node: RbNode): Tree {
    FixInsert(k, Node(Leaf, node, Red, t, Leaf))
  }

  lemma RequeuedIs(s: Sched, tick: Tick, pos: nat, s': Sched)
    requires Busy(s) && s.current in s.info
    requires s'.current == s.current && s'.idle == s.idle
    requires var i, t := s.info[s.current], s.current;
      s'.info == s.info[t := Info(Charged(i.key, i.start, tick.now, t.prio), i.start, Waiting, tick.frame)]
    requires pos <= |s.queue| && s'.queue == Inserted(s.queue, pos, s.current)
    requires forall i :: 0 <= i < pos ==> Key(s', s.queue[i]) <= Key(s', s.current)
    requires forall i :: pos <= i < |s.queue| ==> Key(s', s.current) < Key(s', s.queue[i])
    ensures s' == Requeued(s, tick)
  {
    EnqueueAt(s.queue, s.(info := s'.info), s.current, pos);
  }

  lemma AdmittedIs(s: Sched, t: Thread, i: Info, now: u64, pos: nat, s': Sched)
    requires Wf(s) && t !in s.info && s'.current == s.current && s'.idle == s.idle
    requires s'.info == s.info[t := i.(key := Charged(i.key, 0, now, t.prio), start := 0)]
    requires pos <= |s.queue| && s'.queue == Inserted(s.queue, pos, t)
    requires forall k :: 0 <= k < pos ==> Key(s', s.queue[k]) <= Key(s', t)
    requires forall k :: pos <= k < |s.queue| ==> Key(s', t) < Key(s', s.queue[k])
    ensures s' == Admitted(s, t, i, now)
  {
    EnqueueAt(s.queue, s.(info := s'.info), t, pos);
  }

  // What the machine knows of a thread
  ghost function Record(t: Thread): Info
    reads t
  {
    Info(t.vruntime, t.execStart, t.state, t.context)
  }

  ghost function Records(ts: seq<Thread>): (r: seq<Info>)
    reads ts
    ensures |r| == |ts| && forall i :: 0 <= i < |ts| ==> r[i] == Record(ts[i])
  {
    if ts == [] then [] else Records(ts[..|ts| - 1]) + [Record(ts[|ts| - 1])]
  }

  // The first `n` threads have joined, the others are as before
  ghost predicate Entered(ts: seq<Thread>, now: seq<u64>, n: nat, was: seq<Info>)
    requires |was| == |now| == |ts|
    reads ts
  {
    forall k :: 0 <= k < |ts| ==> Record(ts[k]) == if k < n then Joined(was[k], now[k], ts[k].prio) else was[k]
  }

  lemma NoneEntered(ts: seq<Thread>, now: seq<u64>)
    requires |now| == |ts|
    ensures Entered(ts, now, 0, Records(ts))
  {
  }

  lemma AllEntered(ts: seq<Thread>, now: seq<u64>, was: seq<Info>)
    requires |was| == |now| == |ts| && Entered(ts, now, |ts|, was)
    ensures forall k :: 0 <= k < |ts| ==> Record(ts[k]) == Joined(was[k], now[k], ts[k].prio)
  {
  }

  // run_proc (process.c:184-185) of a thread: it starts at time zero and is charged up to now
  function Joined(i: Info, now: u64, prio: u8): Info {
    Info(Charged(i.key, 0, now, prio), 0, i.state, i.saved)
  }

  function Elements(ts: seq<Thread>): set<Thread> {
    set t | t in ts
  }

  lemma NoneYet(ts: seq<Thread>)
    ensures Elements(ts[..0]) == {} && multiset(ts[..0]) == multiset{}
  {
  }

  lemma NotYet(ts: seq<Thread>, i: nat)
    requires NoDup(ts) && i < |ts|
    ensures ts[i] !in Elements(ts[..i]) && ts[i] in ts
    ensures forall k :: 0 <= k < |ts| && k != i ==> ts[k] != ts[i]
    ensures Elements(ts[..i + 1]) == Elements(ts[..i]) + {ts[i]}
    ensures multiset(ts[..i + 1]) == multiset(ts[..i]) + multiset{ts[i]}
  {
    OnceOf(ts, ts[i]);
    assert ts[..i + 1] == ts[..i] + [ts[i]];
  }

  lemma HeadKnown(s: Sched, tick: Tick)
    requires Wf(s) && s.idle in s.info
    ensures var s1 := BeforePick(s, tick);
      && s.idle in s1.info && s1.info[s.idle].saved == s.info[s.idle].saved
      && (s.queue != [] ==>
            var h := s.queue[0];
            && h in s.queue && h in s1.info && h in s1.queue && h != s.idle && h != s.current
            && s1.info[h].saved == s.info[h].saved)
  {
  }

  // The two halves of schedule make one step of the machine
  lemma Halves(s: Sched, tick: Tick, next: Thread?, s': Sched, found: bool, rsp0: u64, frame': IntFrame)
    requires Wf(s) && s.idle in s.info && tick.exits == Dying(s)
    requires next == if s.queue != [] then s.queue[0] else if Busy(s) && !tick.exits then s.current else null
    requires var s1 := BeforePick(s, tick);
      && s' == (if next == null then s1.(current := s.idle)
                else if next == s.current then s1 else Picked(s1, next, found))
      && (if next != null && next != s.current then Distinct(s1, next) ==> found else found)
    requires frame' == if next == null then tick.frame.(iretRip := s.info[s.idle].saved.iretRip, iretRsp := rsp0)
                       else if next == s.current then tick.frame
                       else if next in s.info then s.info[next].saved.(rsp := tick.frame.rsp) else frame'
    ensures s' == SchedSpec.After(s, tick, found) && Happens(s, Call(tick, found), s')
    ensures frame' == Resumed(s, tick, rsp0)
    ensures found <==> Wf(s')
  {
    hide BeforePick, Picked, SortedBy, NoDup, Distinct;
    assert s.queue != [] ==> s.queue[0] in s.queue;
    StepWf(s, tick);
    MissNotWf(s, tick);
  }

  class Cpu {
    const cfs: Cfs
    const idle: Thread
    var thread: Thread?
    var rsp0: u64
    var vmm: nat
    ghost var live: set<Thread>

    constructor (i: Thread)
      ensures Valid() && fresh(cfs) && fresh(cfs.tree) && fresh(cfs.tree.repr)
      ensures Abs().queue == [] && thread == null && idle == i && live == {i}
    {
      cfs := new Cfs();
      idle, thread, rsp0, vmm, live := i, null, 0, 0, {i};
    }

    // The state of the machine in SchedSpec
    ghost function Abs(): Sched
      reads this, cfs.tree, live
    {
      Sched(cfs.Queue(), thread, idle, map t | t in live :: Record(t))
    }

    // The current thread goes back to the queue when it is interrupted now
    ghost predicate GoesBack()
      reads this, cfs.tree, thread
    {
      thread != null && thread != idle && thread.state != Dead && cfs.Queue() != []
    }

    // The tree is sound and its threads are known
    ghost predicate Sound()
      reads this, cfs, cfs.tree, cfs.tree.repr, cfs.Queue()`vruntime
    {
      cfs.Valid() && idle in live && (forall t :: t in cfs.Queue() ==> t in live)
    }

    ghost predicate Valid()
      reads this, cfs, cfs.tree, cfs.tree.repr, cfs.Queue()`vruntime, live
    {
      Sound() && Wf(Abs()) && Counted()
    }

    // `running` is the number of queued threads
    ghost predicate Counted()
      reads this, cfs, cfs.tree
    {
      cfs.running == Wrap(|cfs.Queue()|)
    }

    // The statements of run_proc (process.c:184-186)
    method Enter(t: Thread, now: u64) returns (ghost pos: nat, ghost node: RbNode)
      requires Sound() && t !in live
      modifies this`live, cfs, cfs.tree, cfs.tree.repr, t
      ensures Sound() && fresh(cfs.tree.repr - old(cfs.tree.repr)) && live == old(live) + {t}
      ensures t.vruntime == Charged(old(t.vruntime), 0, now, t.prio) && t.execStart == 0
      ensures t.state == old(t.state) && t.context == old(t.context)
      ensures pos <= |old(cfs.Queue())| && cfs.Queue() == Inserted(old(cfs.Queue()), pos, t)
      ensures forall i :: 0 <= i < pos ==> old(cfs.Queue())[i].vruntime <= t.vruntime
      ensures forall i :: pos <= i < |old(cfs.Queue())| ==> t.vruntime < old(cfs.Queue())[i].vruntime
      ensures cfs.running == Wrap(old(cfs.running) + 1)
      ensures cfs.tree.tree == Placed(old(SlotCtx(cfs.tree.tree, Top, Charged(t.vruntime, 0, now, t.prio))), t, node)
    {
      hide SchedTree.Valid, Charged, Wrap, Placed, EntsOf, SlotCtx;
      assert allocated(cfs.Queue()) && allocated(EntsOf(cfs.tree.tree));
      t.execStart := 0;
      pos, node := cfs.Enqueue(t, now);
      live := live + {t};
    }

    // run_proc (process.c:182-188), for one thread that is new to the scheduler
    method Admit(t: Thread, now: u64) returns (ghost node: RbNode)
      requires Valid() && t !in live
      modifies this`live, cfs, cfs.tree, cfs.tree.repr, t
      ensures Valid() && fresh(cfs.tree.repr - old(cfs.tree.repr)) && live == old(live) + {t}
      ensures t.vruntime == Charged(old(t.vruntime), 0, now, t.prio)
      ensures Record(t) == Joined(old(Record(t)), now, t.prio)
      ensures Abs() ==
        Admitted(old(Abs()), t, old(Record(t)), now)
      ensures multiset(cfs.Queue()) == old(multiset(cfs.Queue())) + multiset{t}
      ensures cfs.tree.tree == Placed(old(SlotCtx(cfs.tree.tree, Top, Charged(t.vruntime, 0, now, t.prio))), t, node)
    {
      hide SchedTree.Valid, Charged, SchedSpec.Enqueue, Wrap, Wf, Admitted, Placed, EntsOf, SlotCtx, Cfs.Valid;
      WrapStep(|cfs.Queue()|);
      ghost var s, i := Abs(), Record(t);
      AdmittedWf(s, t, i, now);
      ghost var pos;
      pos, node := Enter(t, now);
      AdmittedIs(s, t, i, now, pos, Abs());
    }

    // One round of run_proc: thread `i` is admitted, and the others are not touched
    method Join(ts: seq<Thread>, now: seq<u64>, i: nat, ghost was: seq<Info>, ghost known: set<Thread>,
                ghost queued: multiset<Thread>)
      requires Valid() && |now| == |ts| == |was| && i < |ts| && NoDup(ts) && live == known + Elements(ts[..i])
      requires ts[i] !in known && Entered(ts, now, i, was) && multiset(cfs.Queue()) == queued + multiset(ts[..i])
      modifies this`live, cfs, cfs.tree, cfs.tree.repr, ts[i]
      ensures Valid() && fresh(cfs.tree.repr - old(cfs.tree.repr)) && live == known + Elements(ts[..i + 1])
      ensures multiset(cfs.Queue()) == queued + multiset(ts[..i + 1]) && Entered(ts, now, i + 1, was)
    {
      hide Valid, Abs, Cfs.Queue, Admitted, NoDup, Elements, Charged, Record, Joined, Placed, SlotCtx;
      NotYet(ts, i);
      ghost var node := Admit(ts[i], now[i]);
    }

    // run_proc: the threads of a process one by one, each at its own reading of the clock
    method RunProc(ts: seq<Thread>, now: seq<u64>)
      requires Valid() && |now| == |ts| && NoDup(ts) && forall t :: t in ts ==> t !in live
      modifies this`live, cfs, cfs.tree, cfs.tree.repr, ts
      ensures Valid() && thread == old(thread) && live == old(live) + Elements(ts)
      ensures multiset(cfs.Queue()) == old(multiset(cfs.Queue())) + multiset(ts)
      ensures forall i :: 0 <= i < |ts| ==> Record(ts[i]) == Joined(old(Record(ts[i])), now[i], ts[i].prio)
    {
      hide Valid, Abs, Cfs.Queue, Admitted, NoDup, Elements, Charged, Record, Joined, Entered, Records;
      NoneYet(ts);
      ghost var known, queued, repr, was := live, multiset(cfs.Queue()), cfs.tree.repr, Records(ts);
      NoneEntered(ts, now);
      for i := 0 to |ts|
        invariant Valid() && fresh(cfs.tree.repr - repr)
        invariant live == known + Elements(ts[..i])
        invariant multiset(cfs.Queue()) == queued + multiset(ts[..i])
        invariant Entered(ts, now, i, was)
      {
        assert ts[i] in ts;
        Join(ts, now, i, was, known, queued);
      }
      assert ts[..|ts|] == ts;
      AllEntered(ts, now, was);
    }

    // Where the current thread goes in the tree when it is charged and queued
    ghost function Back(now: u64): Ctx
      requires thread != null
      reads this, cfs.tree, thread, EntsOf(cfs.tree.tree)`vruntime
    {
      SlotCtx(cfs.tree.tree, Top, Charged(thread.vruntime, thread.execStart, now, thread.prio))
    }

    // The statements of schedule (scheduler.c:31-33)
    method Suspend(old_thread: Thread, frame: IntFrame, now: u64) returns (ghost pos: nat, ghost node: RbNode)
      requires Sound() && thread == old_thread && thread in live && thread !in cfs.Queue()
      modifies cfs, cfs.tree, cfs.tree.repr, old_thread
      ensures Sound() && fresh(cfs.tree.repr - old(cfs.tree.repr))
      ensures var i, t := old(Record(old_thread)), old_thread;
        Record(t) == Info(Charged(i.key, i.start, now, t.prio), i.start, Waiting, frame)
      ensures pos <= |old(cfs.Queue())| && cfs.Queue() == Inserted(old(cfs.Queue()), pos, old_thread)
      ensures forall i :: 0 <= i < pos ==> old(cfs.Queue())[i].vruntime <= old_thread.vruntime
      ensures forall i :: pos <= i < |old(cfs.Queue())| ==> old_thread.vruntime < old(cfs.Queue())[i].vruntime
      ensures cfs.running == Wrap(old(cfs.running) + 1)
      ensures cfs.tree.tree == Placed(old(Back(now)), old_thread, node)
    {
      hide SchedTree.Valid, Charged, Wrap, Placed, SlotCtx;
      assert allocated(cfs.Queue()) && allocated(EntsOf(cfs.tree.tree));
      old_thread.state := Waiting;
      pos, node := cfs.Enqueue(old_thread, now);
      old_thread.context := frame;
    }

    // The interrupted thread goes back to the queue (scheduler.c:30-33)
    method PutBack(old_thread: Thread, frame: IntFrame, now: u64) returns (ghost node: RbNode)
      requires Sound() && thread == old_thread && thread != idle && thread in live && thread !in cfs.Queue()
      modifies cfs, cfs.tree, cfs.tree.repr, old_thread
      ensures Sound() && fresh(cfs.tree.repr - old(cfs.tree.repr))
      ensures Abs() == Requeued(old(Abs()), Tick(now, frame, false))
      ensures old(Counted()) ==> Counted()
      ensures cfs.tree.tree == Placed(old(Back(now)), old_thread, node)
    {
      hide SchedTree.Valid, Charged, SchedSpec.Enqueue, Requeued, Wrap, Placed, Back, Cfs.Valid, EntsOf, SlotCtx;
      WrapStep(|cfs.Queue()|);
      ghost var s := Abs();
      forall i | 0 <= i < |s.queue| ensures s.queue[i] in live && s.queue[i] != old_thread {
        assert s.queue[i] in cfs.Queue();
      }
      ghost var pos;
      pos, node := Suspend(old_thread, frame, now);
      RequeuedIs(s, Tick(now, frame, false), pos, Abs());
    }

    // The picked thread leaves the queue and is switched in (scheduler.c:48-53)
    method Take(next: Thread, frame: IntFrame) returns (frame': IntFrame, ghost found: bool)
      requires Sound() && next in cfs.Queue() && NoDup(cfs.Queue()) && SortedBy(cfs.Queue(), Abs())
      modifies this, cfs, cfs.tree, cfs.tree.repr, next`state
      ensures Sound() && live == old(live) && rsp0 == old(rsp0) && cfs.tree.repr <= old(cfs.tree.repr)
      ensures Abs() == Picked(old(Abs()), next, found)
      ensures thread == next && frame' == next.context == old(next.context) && vmm == next.vmm
      ensures next.state == Active && forall t :: t in live && t != next ==> t.state == old(t.state)
      ensures found <==> Search.Clear(old(cfs.tree.tree), next)
      ensures Distinct(old(Abs()), next) ==> found
      ensures old(Counted()) && found ==> Counted()
    {
      hide SchedTree.Valid, SortedBy, NoDup, SchedSpec.Drop, Finds, Search.Clear, Wrap, EntsOf, Distinct;
      WrapStep(|cfs.Queue()|);
      ghost var s := Abs();
      ghost var pos;
      HeadFound(next);
      ghost var t := cfs.tree.tree;
      assert allocated(EntsOf(t));
      found, pos := cfs.Dequeue(next);
      assert found <==> Search.Clear(t, next);
      next.state := Active;
      thread := next;
      frame' := next.context;
      vmm := next.vmm;
      if found { RemovedIs(s.queue, next, pos); }
    }

    // What becomes of the interrupted thread (scheduler.c:19-37)
    method Leave(frame: IntFrame, now: u64, ghost tick: Tick) returns (next: Thread?, ghost node: RbNode?)
      requires Valid() && tick == Tick(now, frame, Busy(Abs()) && thread.state == Dead)
      modifies this, cfs, cfs.tree, cfs.tree.repr, live
      ensures Sound() && fresh(cfs.tree.repr - old(cfs.tree.repr))
      ensures Abs() == BeforePick(old(Abs()), tick) && thread == old(thread) && Counted()
      ensures next == if old(Abs()).queue != [] then old(Abs()).queue[0]
                      else if old(Busy(Abs())) && !tick.exits then old(thread) else null
      ensures rsp0 == if old(Busy(Abs())) then old(rsp0) else frame.iretRsp
      ensures vmm == old(vmm) && live <= old(live)
      ensures old(Busy(Abs())) && !tick.exits && old(Abs()).queue != [] ==>
        node != null && cfs.tree.tree == Placed(old(Back(now)), old(thread), node)
      ensures !(old(Busy(Abs())) && !tick.exits && old(Abs()).queue != []) ==> cfs.tree.tree == old(cfs.tree.tree)
    {
      hide SchedTree.Valid, SortedBy, NoDup, Requeued, Wrap, Placed, Back, EntsOf, SlotCtx, Charged, Record;
      node := null;
      ghost var s := Abs();
      assert allocated(cfs.Queue()) && allocated(EntsOf(cfs.tree.tree));
      next := cfs.PickNext();
      assert thread != null ==> Back(now) == old(Back(now));
      if s.queue != [] { assert s.queue[0] in cfs.Queue(); }
      if thread == null || thread == idle {
        rsp0 := frame.iretRsp;
      } else if thread.state != Dead {
        if next == null {
          next := thread;
        } else {
          node := PutBack(thread, frame, now);
        }
      } else {
        Bury();
      }
    }

    // destroy_thread (scheduler.c:36), as far as the scheduler can see
    method Bury()
      requires Sound() && thread != null && thread != idle && thread !in cfs.Queue()
      modifies `live
      ensures Sound() && Abs() == old(Abs()).(info := old(Abs()).info - {thread}) && live <= old(live)
    {
      hide SchedTree.Valid, Cfs.Queue;
      assert allocated(cfs.Queue());
      ghost var s := Abs();
      live := live - {thread};
      assert Abs().info == s.info - {thread};
    }

    // Nothing to run (scheduler.c:39-46)
    method GoIdle(frame: IntFrame) returns (frame': IntFrame)
      requires Sound()
      modifies `thread, `vmm
      ensures Sound() && Abs() == old(Abs()).(current := idle) && vmm == KERNEL_VMM
      ensures frame' == frame.(iretRip := idle.context.iretRip, iretRsp := rsp0)
    {
      hide SchedTree.Valid;
      assert allocated(cfs.Queue());
      thread := idle;
      frame' := frame.(iretRip := idle.context.iretRip, iretRsp := rsp0);
      vmm := KERNEL_VMM;
    }

    // The idle thread, the same thread or another one goes on (scheduler.c:39-58)
    method Switch(next: Thread?, frame: IntFrame) returns (frame': IntFrame, ghost found: bool)
      requires Sound()
      requires next != null && next != thread ==>
        next in cfs.Queue() && NoDup(cfs.Queue()) && SortedBy(cfs.Queue(), Abs())
      modifies this, cfs, cfs.tree, cfs.tree.repr, live`state
      ensures Sound() && rsp0 == old(rsp0) && cfs.tree.repr <= old(cfs.tree.repr)
      ensures Abs() == if next == null then old(Abs()).(current := idle)
                       else if next == old(thread) then old(Abs()) else Picked(old(Abs()), next, found)
      ensures frame' == if next == null then frame.(iretRip := old(idle.context.iretRip), iretRsp := rsp0)
                        else if next == old(thread) then frame else old(next.context).(rsp := frame.rsp)
      ensures vmm == if next == null then KERNEL_VMM else if next == old(thread) then old(vmm) else next.vmm
      ensures if next != null && next != old(thread) then found <==> Search.Clear(old(cfs.tree.tree), next) else found
      ensures next != null && next != old(thread) && Distinct(old(Abs()), next) ==> found
      ensures old(Counted()) && found ==> Counted()
    {
      hide SchedTree.Valid, SortedBy, NoDup, Picked, Distinct, Wrap, Search.Clear, Abs, Cfs.Queue;
      found := true;
      if next == null {
        frame' := GoIdle(frame);
        return;
      }
      frame' := frame;
      var rsp := frame.rsp;
      if next != thread {
        frame', found := Take(next, frame);
      }
      frame' := frame'.(rsp := rsp);
    }

    // schedule (scheduler.c:16-60)
    method Schedule(frame: IntFrame, now: u64)
      returns (frame': IntFrame, ghost found: bool, ghost searched: Tree, ghost node: RbNode?)
      requires Valid()
      modifies this, cfs, cfs.tree, cfs.tree.repr, live
      ensures Sound() && (found ==> Valid()) && fresh(cfs.tree.repr - old(cfs.tree.repr))
      ensures var tick := Tick(now, frame, old(Busy(Abs()) && thread.state == Dead));
        Happens(old(Abs()), Call(tick, found), Abs()) && frame' == Resumed(old(Abs()), tick, rsp0)
      ensures rsp0 == if old(Busy(Abs())) then old(rsp0) else frame.iretRsp
      // a queued thread is switched in
      ensures old(cfs.Queue()) != [] ==>
        var next := old(cfs.Queue())[0];
        && thread == next && Record(next) == old(Record(next)).(state := Active)
        && frame' == old(next.context).(rsp := frame.rsp) && vmm == next.vmm
      // ... or a thread that nobody competes with goes on
      ensures old(cfs.Queue() == [] && Busy(Abs()) && thread.state != Dead) ==>
        thread == old(thread) && frame' == frame && vmm == old(vmm)
      // ... or there is nothing to run
      ensures old(cfs.Queue() == [] && !(Busy(Abs()) && thread.state != Dead)) ==>
        && thread == idle && vmm == KERNEL_VMM
        && frame' == frame.(iretRip := old(idle.context.iretRip), iretRsp := rsp0)
      ensures old(GoesBack()) ==>
        var t := old(thread);
        Record(t) == Info(Charged(old(t.vruntime), old(t.execStart), now, t.prio), old(t.execStart), Waiting, frame)
      ensures live == old(live) - if old(Busy(Abs()) && thread.state == Dead) then {old(thread)} else {}
      ensures forall t ::
        t in live && !(t == thread && old(cfs.Queue()) != []) && !(t == old(thread) && old(GoesBack())) ==>
        Record(t) == old(Record(t))
      ensures old(Abs()).queue != [] ==> (found <==> Search.Clear(searched, old(Abs()).queue[0]))
      ensures found <==> Valid()
      ensures if old(Busy(Abs()) && thread.state != Dead && Abs().queue != [])
              then node != null && searched == Placed(old(Back(now)), old(thread), node)
              else searched == old(cfs.tree.tree)
    {
      hide SchedTree.Valid, SortedBy, NoDup, Requeued, Picked, BeforePick, Distinct, Wrap, Search.Clear, Placed,
        Abs, Charged, Cfs.Queue, Happens, Resumed, SchedSpec.After;
      Known();
      ghost var s := Abs();
      ghost var tick := Tick(now, frame, Busy(s) && thread.state == Dead);
      BeforePickWf(s, tick);
      HeadKnown(s, tick);
      var next;
      next, node := Leave(frame, now, tick);
      searched := cfs.tree.tree;
      Known();
      frame', found := Switch(next, frame);
      Halves(s, tick, next, Abs(), found, rsp0, frame');
      RecordsAfter(s, tick, found);
      Known();
    }

    // The machine's state spelled out
    lemma Known()
      ensures var s := Abs();
        && s.queue == cfs.Queue() && s.current == thread && s.idle == idle && s.info.Keys == live
        && forall t :: t in live ==> s.info[t] == Record(t)
    {
    }

    // A pick that ties with nobody is found
    lemma HeadFound(next: Thread)
      requires Sound() && next in cfs.Queue() && NoDup(cfs.Queue())
      ensures Finds(cfs.tree.tree, next) <==> Search.Clear(cfs.tree.tree, next)
      ensures Distinct(Abs(), next) ==> Finds(cfs.tree.tree, next)
    {
      OnceOf(cfs.Queue(), next);
      Search.Listed(cfs.tree.tree, next);
      Search.ClearIff(cfs.tree.tree, next);
      if Distinct(Abs(), next) {
        Search.UniqueKeyFound(cfs.tree.tree, next);
      }
    }
  }

  lemma OnceOf(q: seq<Thread>, t: Thread)
    requires NoDup(q)
    ensures Search.Once(q, t)
  {
    forall i, j | 0 <= i < j < |q| && q[i] == t && q[j] == t ensures false {
      TwiceCounted(q, i, j);
    }
  }

  lemma TwiceCounted(q: seq<Thread>, i: nat, j: nat)
    requires i < j < |q| && q[i] == q[j]
    ensures multiset(q)[q[i]] >= 2
  {
    assert q == q[..j] + q[j..];
    assert q[..j][i] in multiset(q[..j]) && q[j..][0] in multiset(q[j..]);
  }

  lemma RemovedIs(q: seq<Thread>, t: Thread, pos: nat)
    requires pos < |q| && q[pos] == t && NoDup(q)
    ensures Removed(q, pos) == Drop(q, t)
  {
    OnceOf(q, t);
    assert t !in q[..pos];
    DropAt(q, t, pos);
  }

  // ---------- a run that leaves the current thread queued

  lemma ThreeShape(na: RbNode, a: Thread, nb: RbNode, b: Thread, nc: RbNode, c: Thread)
    requires a.vruntime == b.vruntime && a != b && a != c
    ensures !Search.Clear(Node(Node(Leaf, na, Red, a, Leaf), nb, Black, b, Node(Leaf, nc, Red, c, Leaf)), a)
  {
    var l := Node(Leaf, na, Red, a, Leaf);
    assert EntsOf(l) == {a} && Search.Over(l, a) == null;
  }

  method AdmitAt(cpu: Cpu, t: Thread, now: u64, ghost k: Ctx) returns (ghost node: RbNode)
    requires cpu.Valid() && t !in cpu.live && cpu.thread == null
    requires k == SlotCtx(cpu.cfs.tree.tree, Top, Charged(t.vruntime, 0, now, t.prio))
    modifies cpu`live, cpu.cfs, cpu.cfs.tree, cpu.cfs.tree.repr, t
    ensures cpu.Valid() && cpu.live == old(cpu.live) + {t} && cpu.cfs.tree.tree == Placed(k, t, node)
    ensures t.vruntime == Charged(old(t.vruntime), 0, now, t.prio) && fresh(cpu.cfs.tree.repr - old(cpu.cfs.tree.repr))
  {
    hide SchedTree.Valid, FixInsert, SlotCtx, Wf, Admitted, Charged, Cpu.Valid, Cpu.Abs;
    node := cpu.Admit(t, now);
  }

  // A new scheduler and three threads with one key, the first of them admitted
  method OneAdmitted(frame: IntFrame, now: u64, key: u64)
    returns (cpu: Cpu, a: Thread, b: Thread, c: Thread, ghost na: RbNode)
    ensures fresh(cpu) && fresh(cpu.cfs) && fresh(cpu.cfs.tree) && fresh(cpu.cfs.tree.repr) && fresh(cpu.live)
    ensures fresh(b) && fresh(c) && a != b && a != c && b != c && cpu.Valid() && cpu.thread == null
    ensures a in cpu.live && b !in cpu.live && c !in cpu.live && cpu.cfs.tree.tree == Node(Leaf, na, Black, a, Leaf)
    ensures b.vruntime == c.vruntime == key && b.prio == c.prio == 0 && a.vruntime == Charged(key, 0, now, 0)
  {
    hide SchedTree.Valid, FixInsert, SlotCtx, Wf, Charged, Cpu.Valid, Cpu.Abs;
    var idle := new Thread(0, 0, 0, KERNEL_VMM, frame);
    a := new Thread(key, 0, 0, 1, frame);
    b := new Thread(key, 0, 0, 1, frame);
    c := new Thread(key, 0, 0, 1, frame);
    cpu := new Cpu(idle);
    NewTree(cpu);
    Search.EmptySlot(Charged(key, 0, now, 0));
    na := AdmitAt(cpu, a, now, Top);
    Search.FirstInsert(na, a);
  }

  // Three threads with one key are admitted
  method ThreeAdmitted(frame: IntFrame, now: u64, key: u64)
    returns (cpu: Cpu, a: Thread, b: Thread, c: Thread, ghost na: RbNode, ghost nb: RbNode, ghost nc: RbNode)
    ensures fresh(cpu) && fresh(cpu.cfs) && fresh(cpu.cfs.tree) && fresh(cpu.cfs.tree.repr) && fresh(cpu.live)
    ensures cpu.Valid() && cpu.thread == null && a != b && a != c && a.vruntime == b.vruntime
    ensures a in cpu.live && b in cpu.live
    ensures cpu.cfs.tree.tree == Node(Node(Leaf, na, Red, a, Leaf), nb, Black, b, Node(Leaf, nc, Red, c, Leaf))
  {
    hide SchedTree.Valid, FixInsert, SlotCtx, Wf, Charged, Cpu.Valid, Cpu.Abs;
    cpu, a, b, c, na := OneAdmitted(frame, now, key);
    Search.SecondSlot(na, a);
    nb := AdmitAt(cpu, b, now, In(Right, na, Black, a, Leaf, Top));
    Search.SecondInsert(na, a, nb, b);
    Search.ThirdSlot(na, a, nb, b);
    nc := AdmitAt(cpu, c, now, In(Right, nb, Red, b, Leaf, In(Right, na, Black, a, Leaf, Top)));
    Search.ThirdInsert(na, a, nb, b, nc, c);
  }

  lemma NewTree(cpu: Cpu)
    requires cpu.Valid() && cpu.Abs().queue == []
    ensures cpu.cfs.tree.tree == Leaf
  {
    Search.EmptyTree(cpu.cfs.tree);
  }

  lemma FirstOfThree(cpu: Cpu, na: RbNode, a: Thread, nb: RbNode, b: Thread, nc: RbNode, c: Thread)
    requires cpu.cfs.tree.tree == Node(Node(Leaf, na, Red, a, Leaf), nb, Black, b, Node(Leaf, nc, Red, c, Leaf))
    ensures cpu.Abs().queue != [] && cpu.Abs().queue[0] == a
  {
    assert Order(Node(Leaf, na, Red, a, Leaf)) == [Item(na, a)];
    assert Order(cpu.cfs.tree.tree)[0] == Item(na, a);
  }

  /** Three threads with one key are admitted; the first call of schedule picks the first of them,
      fails to dequeue it, and leaves it both current and queued. */
  method MissedPick(frame: IntFrame, now: u64, key: u64) returns (cpu: Cpu, ghost found: bool)
    ensures !found && cpu.thread != null && cpu.thread in cpu.cfs.Queue() && !cpu.Valid()
  {
    hide SchedTree.Valid, Wf, Cpu.Valid, Search.Clear, EntsOf;
    var a, b, c, frame';
    ghost var na, nb, nc, searched, node;
    cpu, a, b, c, na, nb, nc := ThreeAdmitted(frame, now, key);
    FirstOfThree(cpu, na, a, nb, b, nc, c);
    ValidWf(cpu);
    ghost var s, tick := cpu.Abs(), Tick(now, frame, false);
    MissNotWf(s, tick);
    Undisturbed(s, tick, true, a);
    Undisturbed(s, tick, true, b);
    Undisturbed(s, tick, false, a);
    Undisturbed(s, tick, false, b);
    frame', found, searched, node := cpu.Schedule(frame, now);
    KeyOf(cpu, a);
    KeyOf(cpu, b);
    ThreeShape(na, a, nb, b, nc, c);
  }

  lemma KeyOf(cpu: Cpu, t: Thread)
    requires t in cpu.Abs().info
    ensures cpu.Abs().info[t].key == t.vruntime
  {
  }

  lemma ValidWf(cpu: Cpu)
    requires cpu.Valid()
    ensures Wf(cpu.Abs())
  {
  }
}
