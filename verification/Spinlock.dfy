/**
 kernel/synchronization/spinlock.c with push_off/pop_off of kernel/kernel.c and
 the id counters of kernel/process.c, as interleaved atomic steps of any number
 of CPUs over any number of locks.
 */
module Spinlock {

  // Where a CPU stands inside acquire, release or a guarded `next++`
  datatype Pc =
    | Running
    | Testing(l: nat)           // acquire: push_off done, `held` not yet read by holding()
    | Comparing(l: nat)         // holding() read `held` as set, `cpu_id` not yet read
    | Spinning(l: nat)          // before a test-and-set
    | Claimed(l: nat)           // test-and-set succeeded, `cpu_id` not yet written
    | Releasing(l: nat)         // release: `cpu_id` cleared, `held` still set
    | Released(l: nat)          // `held` cleared, pop_off not yet done
    | Loaded(l: nat, v: nat)    // counter read, not yet written back
    | Panicked

  // cpu_status_t; `has` and `pushes` are history: the locks between this CPU's
  // test-and-set and its clear, and the explicit push_offs not yet popped
  datatype Core = Core(pc: Pc, intOn: bool, count: nat, has: set<nat>, pushes: nat)

  // spinlock_t, with the counter it guards and the ids handed out so far
  datatype Lock = Lock(held: bool, cpuId: nat, next: nat, issued: seq<nat>)

  datatype Sys = Sys(cores: map<nat, Core>, locks: map<nat, Lock>)

  const TWO_32: int := 0x1_0000_0000

  datatype Op =
    | PushOff | PopOff
    | CallAcquire(l: nat) | ReadHeld | ReadId | TestAndSet | WriteId
    | CallRelease(l: nat) | ClearHeld | EndRelease
    | LoadNext(l: nat) | StoreNext

  // ---------- micro-steps

  // push_off (kernel.c:19-27)
  function Pushed(c: Core): Core {
    c.(intOn := false, count := c.count + 1)
  }

  // pop_off (kernel.c:29-38)
  function Popped(c: Core): Core
    requires c.count > 0
  {
    if c.intOn then c.(pc := Panicked) else c.(count := c.count - 1, intOn := c.count == 1)
  }

  // Which operations a CPU may do next.  Callers release, and count under, only
  // locks they hold, and pop only what they pushed; a count never reaches 2^32.
  predicate Enabled(s: Sys, i: nat, op: Op) {
    i in s.cores &&
    var c := s.cores[i];
    match op
    case PushOff => c.pc.Running? && c.count + 1 < TWO_32
    case PopOff => c.pc.Running? && c.pushes > 0 && c.count > 0
    case CallAcquire(l) => c.pc.Running? && l in s.locks && c.count + 1 < TWO_32
    case ReadHeld => c.pc.Testing? && c.pc.l in s.locks
    case ReadId => c.pc.Comparing? && c.pc.l in s.locks
    case TestAndSet => c.pc.Spinning? && c.pc.l in s.locks
    case WriteId => c.pc.Claimed? && c.pc.l in s.locks
    case CallRelease(l) => c.pc.Running? && l in s.locks && l in c.has
    case ClearHeld => c.pc.Releasing? && c.pc.l in s.locks
    case EndRelease => c.pc.Released? && c.count > 0
    case LoadNext(l) => c.pc.Running? && l in s.locks && l in c.has
    case StoreNext => c.pc.Loaded? && c.pc.l in s.locks
  }

  function Local(s: Sys, i: nat, c: Core): Sys {
    s.(cores := s.cores[i := c])
  }

  function Shared(s: Sys, i: nat, c: Core, l: nat, k: Lock): Sys {
    s.(cores := s.cores[i := c], locks := s.locks[l := k])
  }

  function Do(s: Sys, i: nat, op: Op): Sys
    requires Enabled(s, i, op)
  {
    var c := s.cores[i];
    match op
    case PushOff => Local(s, i, Pushed(c).(pushes := c.pushes + 1))
    case PopOff => Local(s, i, Popped(c).(pushes := c.pushes - 1))
    case CallAcquire(l) => Local(s, i, Pushed(c).(pc := Testing(l)))
    case ReadHeld =>
      var l := c.pc.l;
      Local(s, i, c.(pc := if s.locks[l].held then Comparing(l) else Spinning(l)))
    case ReadId =>
      var l := c.pc.l;
      Local(s, i, c.(pc := if s.locks[l].cpuId == i then Panicked else Spinning(l)))
    case TestAndSet =>
      var l := c.pc.l;
      if s.locks[l].held then s
      else Shared(s, i, c.(pc := Claimed(l), has := c.has + {l}), l, s.locks[l].(held := true))
    case WriteId =>
      Shared(s, i, c.(pc := Running), c.pc.l, s.locks[c.pc.l].(cpuId := i))
    case CallRelease(l) =>
      Shared(s, i, c.(pc := Releasing(l)), l, s.locks[l].(cpuId := 0))
    case ClearHeld =>
      var l := c.pc.l;
      Shared(s, i, c.(pc := Released(l), has := c.has - {l}), l, s.locks[l].(held := false))
    case EndRelease =>
      var d := Popped(c);
      Local(s, i, if d.pc.Panicked? then d else d.(pc := Running))
    case LoadNext(l) => Local(s, i, c.(pc := Loaded(l, s.locks[l].next)))
    case StoreNext =>
      var l, v := c.pc.l, c.pc.v;
      Shared(s, i, c.(pc := Running), l, s.locks[l].(next := v + 1, issued := s.locks[l].issued + [v]))
  }

  // Boot: no lock held, no interrupt disabled by push_off
  predicate Init(s: Sys) {
    && (forall i :: i in s.cores ==> s.cores[i].pc.Running? && s.cores[i].count == 0
                                     && s.cores[i].has == {} && s.cores[i].pushes == 0)
    && (forall l :: l in s.locks ==> s.locks[l] == Lock(false, 0, 0, []))
  }

  datatype Event = Event(cpu: nat, op: Op)

  // A finite interleaving
  predicate IsRun(ss: seq<Sys>, es: seq<Event>) {
    && |ss| == |es| + 1 && Init(ss[0])
    && forall n :: 0 <= n < |es| ==> Enabled(ss[n], es[n].cpu, es[n].op) && ss[n + 1] == Do(ss[n], es[n].cpu, es[n].op)
  }

  // ---------- invariant

  // Not yet counted among `has`, or no longer, but pushed
  function Pending(p: Pc): nat {
    if p.Testing? || p.Comparing? || p.Spinning? || p.Released? then 1 else 0
  }

  // CPU `i` holds `l` and its id is in the lock word
  predicate Settled(s: Sys, i: nat, l: nat) {
    i in s.cores && l in s.cores[i].has && s.cores[i].pc != Claimed(l) && s.cores[i].pc != Releasing(l)
  }

  ghost predicate CoreOk(s: Sys, i: nat)
    requires i in s.cores
  {
    var c := s.cores[i];
    && c.has <= s.locks.Keys
    && (!c.pc.Panicked? ==> c.count == |c.has| + c.pushes + Pending(c.pc))
    && (c.count > 0 ==> !c.intOn)
    && (c.has != {} ==> !c.intOn)
    && (c.pc.Claimed? || c.pc.Releasing? || c.pc.Loaded? ==> c.pc.l in c.has)
    && (c.pc.Testing? || c.pc.Comparing? || c.pc.Spinning? ==> c.pc.l in s.locks)
    && (c.pc.Loaded? && c.pc.l in s.locks ==> c.pc.v == s.locks[c.pc.l].next)
  }

  ghost predicate LockOk(s: Sys, l: nat)
    requires l in s.locks
  {
    var k := s.locks[l];
    && (k.held <==> exists i :: i in s.cores && l in s.cores[i].has)
    && (forall i :: Settled(s, i, l) ==> k.cpuId == i)
    && (k.cpuId != 0 ==> Settled(s, k.cpuId, l))
    && |k.issued| == k.next && forall n :: 0 <= n < k.next ==> k.issued[n] == n
  }

  ghost predicate Exclusive(s: Sys) {
    forall i, j, l :: i in s.cores && j in s.cores && l in s.cores[i].has && l in s.cores[j].has ==> i == j
  }

  ghost predicate Inv(s: Sys) {
    && Exclusive(s)
    && (forall i :: i in s.cores ==> CoreOk(s, i))
    && (forall l :: l in s.locks ==> LockOk(s, l))
  }

  lemma InitInv(s: Sys)
    requires Init(s)
    ensures Inv(s)
  {
  }

  // ---------- every step keeps the invariant

  // Steps that leave the locks, `has` and the settled holds alone
  // A step of CPU `i` that concerns no lock
  ghost predicate OffLock(s: Sys, i: nat, c: Core) {
    && Inv(s) && i in s.cores && c.has == s.cores[i].has
    && !c.pc.Claimed? && !c.pc.Releasing? && !s.cores[i].pc.Claimed? && !s.cores[i].pc.Releasing?
  }

  lemma LocalLock(s: Sys, i: nat, c: Core, l: nat)
    requires OffLock(s, i, c) && l in s.locks
    ensures LockOk(Local(s, i, c), l)
  {
    hide CoreOk, Exclusive;
    var s' := Local(s, i, c);
    forall j ensures Settled(s', j, l) <==> Settled(s, j, l) {}
    assert LockOk(s, l);
    SameHolders(s, s', l);
  }

  lemma LocalInv(s: Sys, i: nat, c: Core)
    requires OffLock(s, i, c) && CoreOk(Local(s, i, c), i)
    ensures Inv(Local(s, i, c))
  {
    hide LockOk;
    var s' := Local(s, i, c);
    forall j | j in s'.cores ensures CoreOk(s', j) {
      assert CoreOk(s, j);
    }
    forall l | l in s'.locks ensures LockOk(s', l) {
      LocalLock(s, i, c, l);
    }
  }

  lemma SameHolders(s: Sys, s': Sys, l: nat)
    requires s.cores.Keys == s'.cores.Keys && forall j :: j in s.cores ==> s'.cores[j].has == s.cores[j].has
    ensures (exists j :: j in s.cores && l in s.cores[j].has) <==> exists j :: j in s'.cores && l in s'.cores[j].has
  {
  }

  lemma LocalStep(s: Sys, i: nat, op: Op)
    requires Inv(s) && Enabled(s, i, op)
    requires op.PushOff? || op.PopOff? || op.CallAcquire? || op.ReadHeld? || op.ReadId?
             || op.EndRelease? || op.LoadNext?
    ensures Inv(Do(s, i, op))
  {
    assert CoreOk(s, i);
    LocalInv(s, i, Do(s, i, op).cores[i]);
  }

  // Steps on lock `l`: the other locks and CPUs do not notice
  // What a step of CPU `i` on lock `l` leaves alone
  ghost predicate OnLock(s: Sys, i: nat, c: Core, l: nat, k: Lock) {
    && Inv(s) && i in s.cores && l in s.locks
    && (forall x :: x != l ==> (x in c.has <==> x in s.cores[i].has))
    && (forall x :: x != l && x in c.has ==> c.pc != Claimed(x) && c.pc != Releasing(x))
    && (forall x :: x != l && x in c.has ==> s.cores[i].pc != Claimed(x) && s.cores[i].pc != Releasing(x))
    && (k.next == s.locks[l].next || l in s.cores[i].has)
  }

  lemma OtherCore(s: Sys, i: nat, c: Core, l: nat, k: Lock, j: nat)
    requires OnLock(s, i, c, l, k) && j in s.cores && j != i
    ensures CoreOk(Shared(s, i, c, l, k), j)
  {
    assert CoreOk(s, j);
  }

  lemma OtherLock(s: Sys, i: nat, c: Core, l: nat, k: Lock, x: nat)
    requires OnLock(s, i, c, l, k) && x in s.locks && x != l
    ensures LockOk(Shared(s, i, c, l, k), x)
  {
    hide CoreOk, Exclusive;
    var s' := Shared(s, i, c, l, k);
    assert LockOk(s, x);
    forall j ensures Settled(s', j, x) <==> Settled(s, j, x) {}
    if j :| j in s.cores && x in s.cores[j].has { assert x in s'.cores[j].has; }
    if j :| j in s'.cores && x in s'.cores[j].has { assert x in s.cores[j].has; }
  }

  lemma SharedInv(s: Sys, i: nat, c: Core, l: nat, k: Lock)
    requires OnLock(s, i, c, l, k)
    requires var s' := Shared(s, i, c, l, k); CoreOk(s', i) && LockOk(s', l)
    requires l in c.has ==> forall j :: j in s.cores && j != i ==> l !in s.cores[j].has
    ensures Inv(Shared(s, i, c, l, k))
  {
    hide CoreOk, LockOk;
    var s' := Shared(s, i, c, l, k);
    forall j | j in s'.cores ensures CoreOk(s', j) {
      if j != i { OtherCore(s, i, c, l, k, j); }
    }
    forall x | x in s'.locks ensures LockOk(s', x) {
      if x != l { OtherLock(s, i, c, l, k, x); }
    }
  }

  // Nobody else holds a lock that CPU `i` holds
  lemma Alone(s: Sys, i: nat, l: nat)
    requires Inv(s) && i in s.cores && l in s.cores[i].has
    ensures forall j :: j in s.cores && j != i ==> l !in s.cores[j].has
  {
  }

  // What a successful test-and-set leaves of the CPU and of the lock
  lemma ClaimedOk(s: Sys, i: nat)
    requires Inv(s) && Enabled(s, i, TestAndSet) && !s.locks[s.cores[i].pc.l].held
    ensures var l, s' := s.cores[i].pc.l, Do(s, i, TestAndSet);
      CoreOk(s', i) && LockOk(s', l) && forall j :: j in s.cores ==> l !in s.cores[j].has
  {
    hide Exclusive;
    var l, s' := s.cores[i].pc.l, Do(s, i, TestAndSet);
    assert CoreOk(s, i) && LockOk(s, l);
    assert forall j :: j in s.cores ==> l !in s.cores[j].has;
    assert l in s'.cores[i].has && !Settled(s, s.locks[l].cpuId, l);
    forall j ensures !Settled(s', j, l) {}
  }

  lemma TestAndSetInv(s: Sys, i: nat)
    requires Inv(s) && Enabled(s, i, TestAndSet)
    ensures Inv(Do(s, i, TestAndSet))
  {
    hide CoreOk, LockOk, Exclusive;
    var l, s' := s.cores[i].pc.l, Do(s, i, TestAndSet);
    if !s.locks[l].held {
      ClaimedOk(s, i);
      SharedInv(s, i, s'.cores[i], l, s'.locks[l]);
    }
  }

  lemma WriteIdInv(s: Sys, i: nat)
    requires Inv(s) && Enabled(s, i, WriteId)
    ensures Inv(Do(s, i, WriteId))
  {
    var l := s.cores[i].pc.l;
    var s' := Do(s, i, WriteId);
    assert CoreOk(s, i) && LockOk(s, l);
    Alone(s, i, l);
    assert Settled(s', i, l) && l in s'.cores[i].has;
    SharedInv(s, i, s'.cores[i], l, s'.locks[l]);
  }

  lemma CallReleaseInv(s: Sys, i: nat, l: nat)
    requires Inv(s) && Enabled(s, i, CallRelease(l))
    ensures Inv(Do(s, i, CallRelease(l)))
  {
    var s' := Do(s, i, CallRelease(l));
    assert CoreOk(s, i) && LockOk(s, l);
    Alone(s, i, l);
    assert l in s'.cores[i].has;
    assert forall j :: !Settled(s', j, l) by {
      forall j ensures !Settled(s', j, l) {}
    }
    SharedInv(s, i, s'.cores[i], l, s'.locks[l]);
  }

  lemma ClearHeldInv(s: Sys, i: nat)
    requires Inv(s) && Enabled(s, i, ClearHeld)
    ensures Inv(Do(s, i, ClearHeld))
  {
    var c := s.cores[i];
    var l := c.pc.l;
    var s' := Do(s, i, ClearHeld);
    assert CoreOk(s, i) && LockOk(s, l);
    Alone(s, i, l);
    assert |c.has - {l}| == |c.has| - 1;
    assert forall j :: j in s'.cores ==> l !in s'.cores[j].has;
    assert !Settled(s, i, l);
    assert forall j :: !Settled(s', j, l) by {
      forall j ensures !Settled(s', j, l) {}
    }
    assert s.locks[l].cpuId == 0;
    SharedInv(s, i, s'.cores[i], l, s'.locks[l]);
  }

  lemma StoreNextInv(s: Sys, i: nat)
    requires Inv(s) && Enabled(s, i, StoreNext)
    ensures Inv(Do(s, i, StoreNext))
  {
    var l := s.cores[i].pc.l;
    var s' := Do(s, i, StoreNext);
    assert CoreOk(s, i) && LockOk(s, l);
    Alone(s, i, l);
    forall j ensures Settled(s', j, l) <==> Settled(s, j, l) {}
    SameHolders(s, s', l);
    SharedInv(s, i, s'.cores[i], l, s'.locks[l]);
  }

  lemma StepInv(s: Sys, i: nat, op: Op)
    requires Inv(s) && Enabled(s, i, op)
    ensures Inv(Do(s, i, op))
  {
    match op
    case TestAndSet => TestAndSetInv(s, i);
    case WriteId => WriteIdInv(s, i);
    case CallRelease(l) => CallReleaseInv(s, i, l);
    case ClearHeld => ClearHeldInv(s, i);
    case StoreNext => StoreNextInv(s, i);
    case _ => LocalStep(s, i, op);
  }

  // ---------- interrupts

  // Event `m` is a pop_off of CPU `i`, on its own or in release, that leaves nothing pushed
  predicate PopsToZero(ss: seq<Sys>, es: seq<Event>, m: nat, i: nat)
    requires m < |es| < |ss|
  {
    && es[m].cpu == i && (es[m].op.PopOff? || es[m].op.EndRelease?)
    && i in ss[m + 1].cores && ss[m + 1].cores[i].count == 0
  }

  // CPU `i` started with interrupts on, or has popped its last push_off since
  ghost predicate EverOn(ss: seq<Sys>, es: seq<Event>, n: nat, i: nat)
    requires n <= |es| < |ss|
  {
    (i in ss[0].cores && ss[0].cores[i].intOn) || exists m :: 0 <= m < n && PopsToZero(ss, es, m, i)
  }

  // Interrupts are on exactly when nothing is pushed, once they were on at all
  predicate Lit(c: Core, ever: bool) {
    !c.pc.Panicked? ==> (c.intOn <==> c.count == 0 && ever)
  }

  ghost predicate AllLit(ss: seq<Sys>, es: seq<Event>, n: nat)
    requires n <= |es| < |ss|
  {
    var s := ss[n];
    forall i :: i in s.cores ==> Lit(s.cores[i], EverOn(ss, es, n, i))
  }

  lemma StepLit(s: Sys, i: nat, op: Op, j: nat, ever: bool, ever': bool)
    requires Inv(s) && Enabled(s, i, op) && j in s.cores && Lit(s.cores[j], ever)
    requires ever' == (ever || (j == i && (op.PopOff? || op.EndRelease?) && Do(s, i, op).cores[i].count == 0))
    ensures j in Do(s, i, op).cores && Lit(Do(s, i, op).cores[j], ever')
  {
    hide LockOk, Exclusive;
    assert CoreOk(s, i);
  }

  lemma EverOnNext(ss: seq<Sys>, es: seq<Event>, n: nat, i: nat)
    requires n < |es| < |ss|
    ensures EverOn(ss, es, n + 1, i) <==> EverOn(ss, es, n, i) || PopsToZero(ss, es, n, i)
  {
    hide PopsToZero;
  }

  /** The invariant holds in every state of every run, and there interrupts are on for a CPU exactly when
      it has nothing pushed and they were on at boot or were turned on by a pop_off since. */
  lemma {:induction false} RunInv(ss: seq<Sys>, es: seq<Event>, n: nat)
    requires IsRun(ss, es) && n < |ss|
    ensures Inv(ss[n]) && AllLit(ss, es, n)
  {
    hide Inv, Do, Lit, PopsToZero;
    if n == 0 {
      InitInv(ss[0]);
      forall i | i in ss[0].cores ensures Lit(ss[0].cores[i], EverOn(ss, es, 0, i)) { BootLit(ss, es, i); }
    } else {
      RunInv(ss, es, n - 1);
      RunStep(ss, es, n - 1);
    }
  }

  lemma BootLit(ss: seq<Sys>, es: seq<Event>, i: nat)
    requires IsRun(ss, es) && i in ss[0].cores
    ensures Lit(ss[0].cores[i], EverOn(ss, es, 0, i))
  {
  }

  lemma RunStep(ss: seq<Sys>, es: seq<Event>, n: nat)
    requires IsRun(ss, es) && n < |es|
    requires Inv(ss[n]) && AllLit(ss, es, n)
    ensures Inv(ss[n + 1]) && AllLit(ss, es, n + 1)
  {
    hide Inv, Lit, EverOn;
    var s, e, s' := ss[n], es[n], ss[n + 1];
    StepInv(s, e.cpu, e.op);
    SameCores(s, e.cpu, e.op);
    forall i | i in s'.cores ensures Lit(s'.cores[i], EverOn(ss, es, n + 1, i)) {
      EverOnNext(ss, es, n, i);
      StepLit(s, e.cpu, e.op, i, EverOn(ss, es, n, i), EverOn(ss, es, n + 1, i));
    }
  }

  lemma SameCores(s: Sys, i: nat, op: Op)
    requires Enabled(s, i, op)
    ensures Do(s, i, op).cores.Keys == s.cores.Keys
  {
  }

  // ---------- what holds in every interleaving

  /** At most one CPU is between a test-and-set and its clear, with its interrupts
      off and its push_off_count equal to what it still has to pop. */
  lemma MutualExclusion(ss: seq<Sys>, es: seq<Event>, n: nat, i: nat, l: nat)
    requires IsRun(ss, es) && n < |ss| && i in ss[n].cores && l in ss[n].cores[i].has
    ensures forall j :: j in ss[n].cores && l in ss[n].cores[j].has ==> j == i
    ensures l in ss[n].locks && ss[n].locks[l].held && !ss[n].cores[i].intOn
    ensures var c := ss[n].cores[i]; !c.pc.Panicked? ==> c.count == |c.has| + c.pushes + Pending(c.pc)
  {
    RunInv(ss, es, n);
    assert CoreOk(ss[n], i) && LockOk(ss[n], l);
  }

  /** The ids handed out under a lock are 0, 1, 2, ... in order, so all distinct. */
  lemma IdsDistinct(ss: seq<Sys>, es: seq<Event>, n: nat, l: nat, a: nat, b: nat)
    requires IsRun(ss, es) && n < |ss| && l in ss[n].locks
    requires a < b < |ss[n].locks[l].issued|
    ensures ss[n].locks[l].issued[a] == a && ss[n].locks[l].issued[a] != ss[n].locks[l].issued[b]
  {
    RunInv(ss, es, n);
    assert LockOk(ss[n], l);
  }

  /** On a CPU that boots with interrupts on they are on exactly when it has nothing pushed, until it
      panics; on any CPU a pop_off of the last push turns them on, and they stay so with nothing pushed. */
  lemma InterruptsExact(ss: seq<Sys>, es: seq<Event>, n: nat, i: nat)
    requires IsRun(ss, es) && n < |ss| && i in ss[n].cores && !ss[n].cores[i].pc.Panicked?
    ensures i in ss[0].cores && ss[0].cores[i].intOn ==> (ss[n].cores[i].intOn <==> ss[n].cores[i].count == 0)
    ensures (exists m :: 0 <= m < n && PopsToZero(ss, es, m, i)) ==>
      (ss[n].cores[i].intOn <==> ss[n].cores[i].count == 0)
    ensures i in ss[0].cores && !ss[0].cores[i].intOn && (forall m :: 0 <= m < n ==> !PopsToZero(ss, es, m, i)) ==>
      !ss[n].cores[i].intOn
  {
    hide Inv, PopsToZero;
    RunInv(ss, es, n);
    assert Lit(ss[n].cores[i], EverOn(ss, es, n, i));
  }

  /** pop_off never panics. */
  lemma PopOffSafe(ss: seq<Sys>, es: seq<Event>, n: nat)
    requires IsRun(ss, es) && n < |es| && (es[n].op.PopOff? || es[n].op.EndRelease?)
    ensures !ss[n + 1].cores[es[n].cpu].pc.Panicked?
  {
    RunInv(ss, es, n);
    assert CoreOk(ss[n], es[n].cpu);
  }

  // holding (spinlock.c:10-12), both fields read at once
  predicate Holding(s: Sys, i: nat, l: nat)
    requires l in s.locks
  {
    s.locks[l].held && s.locks[l].cpuId == i
  }

  /** holding is exact for every CPU but number 0, for which it is also true while
      another CPU holds the lock with its id not in the lock word. */
  lemma HoldingExact(ss: seq<Sys>, es: seq<Event>, n: nat, i: nat, l: nat)
    requires IsRun(ss, es) && n < |ss| && l in ss[n].locks && i in ss[n].cores
    ensures var s := ss[n];
      Holding(s, i, l) <==>
        Settled(s, i, l) || (i == 0 && exists j :: j in s.cores && l in s.cores[j].has && !Settled(s, j, l))
  {
    var s := ss[n];
    RunInv(ss, es, n);
    assert LockOk(s, l);
    if Holding(s, i, l) && !Settled(s, i, l) {
      assert i == 0;
      var j :| j in s.cores && l in s.cores[j].has;
    }
    if i == 0 {
      if j :| j in s.cores && l in s.cores[j].has && !Settled(s, j, l) {
        Alone(s, j, l);
        assert !Settled(s, s.locks[l].cpuId, l);
      }
    }
  }

  /** acquire panics in its second read exactly when the CPU settled the lock
      before, or it is CPU 0 and no other CPU has settled it. */
  lemma PanicExact(ss: seq<Sys>, es: seq<Event>, n: nat)
    requires IsRun(ss, es) && n < |es| && es[n].op == ReadId
    ensures var s, i := ss[n], es[n].cpu; var l := s.cores[i].pc.l;
      ss[n + 1].cores[i].pc.Panicked? <==> Settled(s, i, l) || (i == 0 && forall j :: j != 0 ==> !Settled(s, j, l))
  {
    RunInv(ss, es, n);
    var s, i := ss[n], es[n].cpu;
    var l := s.cores[i].pc.l;
    assert LockOk(s, l);
    if s.locks[l].cpuId == 0 {
      assert forall j :: Settled(s, j, l) ==> j == 0;
    } else {
      assert Settled(s, s.locks[l].cpuId, l);
    }
  }

  /** Undisturbed, the check in acquire panics exactly if holding says so, and goes on to the
      test-and-set otherwise. */
  lemma CheckIsHolding(s: Sys, i: nat)
    requires Enabled(s, i, ReadHeld)
    ensures var l, s1 := s.cores[i].pc.l, Do(s, i, ReadHeld);
      && (Enabled(s1, i, ReadId) <==> s.locks[l].held) && (Enabled(s1, i, TestAndSet) <==> !s.locks[l].held)
      && (s.locks[l].held ==>
            Do(s1, i, ReadId) == Local(s, i, s.cores[i].(pc := if Holding(s, i, l) then Panicked else Spinning(l))))
      && (!s.locks[l].held ==> !Holding(s, i, l) && s1 == Local(s, i, s.cores[i].(pc := Spinning(l))))
  {
  }

  // CPU `i` does the operations one after the other, with no step of another CPU between
  predicate Does(s: Sys, i: nat, ops: seq<Op>, s': Sys)
    decreases |ops|
  {
    if ops == [] then s' == s else Enabled(s, i, ops[0]) && Does(Do(s, i, ops[0]), i, ops[1..], s')
  }

  lemma DoesFirst(s: Sys, i: nat, ops: seq<Op>, s1: Sys, s': Sys)
    requires ops != [] && Enabled(s, i, ops[0]) && s1 == Do(s, i, ops[0]) && Does(s1, i, ops[1..], s')
    ensures Does(s, i, ops, s')
  {
  }

  /** An undisturbed acquire of a free lock gets it, with one more push and interrupts off. */
  lemma AcquireFree(s: Sys, i: nat, l: nat)
    requires Enabled(s, i, CallAcquire(l)) && !s.locks[l].held
    ensures Does(s, i, [CallAcquire(l), ReadHeld, TestAndSet, WriteId], Locked(s, i, l))
  {
    hide Does;
    var s1 := Do(s, i, CallAcquire(l));
    var s2 := Do(s1, i, ReadHeld);
    var s3 := Do(s2, i, TestAndSet);
    var s4 := Do(s3, i, WriteId);
    assert s4.cores == Locked(s, i, l).cores && s4.locks == Locked(s, i, l).locks;
    DoesNothing(s4, i);
    DoesFirst(s3, i, [WriteId], s4, s4);
    DoesFirst(s2, i, [TestAndSet, WriteId], s3, s4);
    DoesFirst(s1, i, [ReadHeld, TestAndSet, WriteId], s2, s4);
    DoesFirst(s, i, [CallAcquire(l), ReadHeld, TestAndSet, WriteId], s1, s4);
  }

  lemma DoesNothing(s: Sys, i: nat)
    ensures Does(s, i, [], s)
  {
  }

  // CPU `i` has `l`
  function Locked(s: Sys, i: nat, l: nat): Sys
    requires i in s.cores && l in s.locks
  {
    var c := s.cores[i];
    Shared(s, i, c.(intOn := false, count := c.count + 1, has := c.has + {l}), l, s.locks[l].(held := true, cpuId := i))
  }

  // ... its id is out of the lock word
  function Unmarked(s: Sys, i: nat, l: nat): Sys
    requires i in s.cores && l in s.locks
  {
    var c := Locked(s, i, l).cores[i];
    Shared(s, i, c.(pc := Releasing(l)), l, s.locks[l].(held := true, cpuId := 0))
  }

  // ... and the lock is clear
  function Unheld(s: Sys, i: nat, l: nat): Sys
    requires i in s.cores
  {
    var c := s.cores[i];
    Local(s, i, c.(pc := Released(l), intOn := false, count := c.count + 1))
  }

  lemma LockedReleases(s: Sys, i: nat, l: nat)
    requires Enabled(s, i, CallAcquire(l))
    ensures Enabled(Locked(s, i, l), i, CallRelease(l))
    ensures Do(Locked(s, i, l), i, CallRelease(l)) == Unmarked(s, i, l)
  {
    var r, u := Do(Locked(s, i, l), i, CallRelease(l)), Unmarked(s, i, l);
    assert r.cores == u.cores && r.locks == u.locks;
  }

  lemma UnmarkedClears(s: Sys, i: nat, l: nat)
    requires Enabled(s, i, CallAcquire(l)) && l !in s.cores[i].has && !s.locks[l].held && s.locks[l].cpuId == 0
    ensures Enabled(Unmarked(s, i, l), i, ClearHeld) && Do(Unmarked(s, i, l), i, ClearHeld) == Unheld(s, i, l)
  {
    var r, u := Do(Unmarked(s, i, l), i, ClearHeld), Unheld(s, i, l);
    assert r.cores[i].has == s.cores[i].has;
    assert r.cores == u.cores && r.locks == u.locks;
  }

  lemma UnheldPops(s: Sys, i: nat, l: nat)
    requires Enabled(s, i, CallAcquire(l)) && (s.cores[i].intOn <==> s.cores[i].count == 0)
    ensures Enabled(Unheld(s, i, l), i, EndRelease) && Do(Unheld(s, i, l), i, EndRelease) == s
  {
    assert Do(Unheld(s, i, l), i, EndRelease).cores == s.cores;
  }

  /** The release after it gives back the state before, interrupts included. */
  lemma ReleaseUndoes(s: Sys, i: nat, l: nat)
    requires Enabled(s, i, CallAcquire(l)) && l !in s.cores[i].has
    requires !s.locks[l].held && s.locks[l].cpuId == 0 && (s.cores[i].intOn <==> s.cores[i].count == 0)
    ensures Does(Locked(s, i, l), i, [CallRelease(l), ClearHeld, EndRelease], s)
  {
    hide Does, Do;
    var s0, s1, s2 := Locked(s, i, l), Unmarked(s, i, l), Unheld(s, i, l);
    LockedReleases(s, i, l);
    UnmarkedClears(s, i, l);
    UnheldPops(s, i, l);
    DoesNothing(s, i);
    DoesFirst(s2, i, [EndRelease], s, s);
    DoesFirst(s1, i, [ClearHeld, EndRelease], s2, s);
    DoesFirst(s0, i, [CallRelease(l), ClearHeld, EndRelease], s1, s);
  }

  // ---------- a run in which CPU 0 panics without holding anything

  function Booted(): Sys {
    var c, k := Core(Running, true, 0, {}, 0), Lock(false, 0, 0, []);
    Sys(map[0 := c, 1 := c], map[0 := k])
  }

  // One more step
  lemma RunOn(ss: seq<Sys>, es: seq<Event>, e: Event)
    requires IsRun(ss, es) && Enabled(ss[|es|], e.cpu, e.op)
    ensures IsRun(ss + [Do(ss[|es|], e.cpu, e.op)], es + [e])
  {
    hide Do, Enabled;
  }

  lemma SpuriousPanic() returns (ss: seq<Sys>, es: seq<Event>)
    ensures IsRun(ss, es)
    ensures var last := ss[|es|]; 0 in last.cores && last.cores[0].pc.Panicked? && last.cores[0].has == {}
  {
    var s0 := Booted();
    var e1, e2, e3 := Event(1, CallAcquire(0)), Event(1, ReadHeld), Event(1, TestAndSet);
    var f1, f2, f3 := Event(0, CallAcquire(0)), Event(0, ReadHeld), Event(0, ReadId);
    var s1 := Do(s0, 1, e1.op);
    var s2 := Do(s1, 1, e2.op);
    var s3 := Do(s2, 1, e3.op);
    assert s3.locks[0].held && s3.locks[0].cpuId == 0 && s3.cores[0] == s0.cores[0];
    var s4 := Do(s3, 0, f1.op);
    var s5 := Do(s4, 0, f2.op);
    var s6 := Do(s5, 0, f3.op);
    assert s6.cores[0].pc.Panicked? && s6.cores[0].has == {};
    ss, es := [s0], [];
    RunOn(ss, es, e1);
    RunOn(ss + [s1], es + [e1], e2);
    RunOn(ss + [s1] + [s2], es + [e1] + [e2], e3);
    RunOn(ss + [s1] + [s2] + [s3], es + [e1] + [e2] + [e3], f1);
    RunOn(ss + [s1] + [s2] + [s3] + [s4], es + [e1] + [e2] + [e3] + [f1], f2);
    RunOn(ss + [s1] + [s2] + [s3] + [s4] + [s5], es + [e1] + [e2] + [e3] + [f1] + [f2], f3);
    ss := ss + [s1] + [s2] + [s3] + [s4] + [s5] + [s6];
    es := es + [e1] + [e2] + [e3] + [f1] + [f2] + [f3];
  }
}
