/** What the IOKernel's scheduler and its policy know about the machine. */
module IokMachine {
  type Pid = nat

  /** sched_allowed_cores and sched_siblings. */
  datatype Machine = Machine(allowed: set<nat>, siblings: seq<nat>)

  function Sibling(m: Machine, core: nat): nat {
    if core < |m.siblings| then m.siblings[core] else |m.siblings|
  }
}
