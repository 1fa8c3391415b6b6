/** Threads, which begin with their scheduling entity (kernel/include/kernel/process.h:43-55). */
module Threads {
  import opened Words

  datatype State = Active | Sleeping | Waiting | Dead

  // int_frame_t: the fields the scheduler names, and all the other words
  datatype IntFrame = IntFrame(rsp: u64, iretRip: u64, iretRsp: u64, others: seq<u64>)

  class Thread {
    var vruntime: u64
    var execStart: u64
    const prio: u8
    var state: State
    var context: IntFrame
    const vmm: nat

    // add_thread (process.c:137-172); the key, start time and priority are what the memory held
    constructor (key: u64, start: u64, p: u8, space: nat, c: IntFrame)
      ensures vruntime == key && execStart == start && prio == p && state == Waiting && context == c && vmm == space
    {
      vruntime, execStart, prio, state, context, vmm := key, start, p, Waiting, c, space;
    }
  }

  // sched_entity_t * and thread_t * are the same address; `entity_key` is `vruntime`
  type Entity = Thread
}
