/** process.c: the process table and the circular run list. */
module Scheduler {
  import opened RoundRobin

  datatype ProcState = Runnable | Running | Blocked

  class Process {
    var pid: nat
    var state: ProcState
    var savedRsp: nat
    var next: Process?

    constructor ()
      ensures next == null && state == Runnable
    {
      pid, state, savedRsp, next := 0, Runnable, 0, null;
    }
  }

  const MAX_PROCESSES: nat := 8

  class ProcessTable {
    const processes: array<Process>
    var processCount: nat
    var current: Process?
    var runList: Process?
    var nextPid: nat
    ghost var ring: seq<Process>

    ghost function Slots(): set<object>
      reads processes
    {
      set i | 0 <= i < processes.Length :: processes[i]
    }

    /** The linked processes form one cycle in creation order, run_list is its last member, and
        the current process is the only running one. */
    ghost predicate Valid()
      reads this, processes, Slots()
    {
      && processes.Length == MAX_PROCESSES && processCount <= MAX_PROCESSES
      && (forall i, j :: 0 <= i < j < processes.Length ==> processes[i] != processes[j])
      && |ring| <= processCount
      && (forall i :: 0 <= i < |ring| ==> ring[i] in processes[..processCount])
      && (forall i, j :: 0 <= i < j < |ring| ==> ring[i] != ring[j])
      && (forall i {:trigger ring[i].next} :: 0 <= i < |ring| ==> ring[i].next == ring[NextIndex(i, |ring|)])
      && runList == (if |ring| == 0 then null else ring[|ring| - 1])
      && (current != null ==> current in ring)
      && (forall i :: 0 <= i < |ring| ==> (ring[i].state == Running <==> ring[i] == current))
    }

    /** The scheduler state the run lemmas speak of. */
    ghost predicate Is(s: Sched)
      reads this, ring
    {
      && |s.saved| == |ring|
      && (forall i :: 0 <= i < |ring| ==> ring[i].savedRsp == s.saved[i])
      && s.running == (current != null)
      && (s.running ==> s.cur < |ring| && ring[s.cur] == current)
    }

    /** process_init, short of its own first process_create: no process yet. slots is the static
        array. */
    constructor (slots: array<Process>)
      requires slots.Length == MAX_PROCESSES
      requires forall i, j :: 0 <= i < j < slots.Length ==> slots[i] != slots[j]
      ensures Valid() && ring == [] && current == null && processes == slots
      ensures Is(Sched([], false, 0))
    {
      processes := slots;
      processCount, nextPid := 0, 1;
      current, runList, ring := null, null, [];
    }

    /** Takes the next slot and, when its stack could be allocated, links it in behind run_list. */
    method Create(stackOk: bool, initialRsp: nat, ghost s: Sched)
      requires Valid() && Is(s) && s.Valid()
      modifies this, Slots()
      ensures Valid()
      ensures var created := old(processCount) < MAX_PROCESSES && stackOk;
              && Is(if created then Step(s, Event.Create(initialRsp)) else s)
              && (if created then
                    && ring == old(ring) + [processes[old(processCount)]]
                    && ring[|old(ring)|].savedRsp == initialRsp && ring[|old(ring)|].pid == old(nextPid)
                    && nextPid == old(nextPid) + 1
                  else ring == old(ring) && nextPid == old(nextPid))
      ensures processCount == if old(processCount) < MAX_PROCESSES then old(processCount) + 1 else old(processCount)
    {
      if processCount >= MAX_PROCESSES {
        return;
      }
      var p := AllocProcess(s);
      if !stackOk {
        return;
      }
      Fill(p, initialRsp, s);
      Link(p, s);
    }

    /** The next slot of the table. */
    method AllocProcess(ghost s: Sched) returns (p: Process)
      requires Valid() && Is(s) && processCount < MAX_PROCESSES
      modifies this`processCount
      ensures Valid() && Is(s)
      ensures p !in ring && p in processes[..processCount] && processCount == old(processCount) + 1
      ensures p == processes[old(processCount)]
      ensures |ring| < processCount
    {
      hide NextIndex;
      p := processes[processCount];
      assert p !in ring;
      ghost var was := processes[..processCount];
      processCount := processCount + 1;
      assert processes[..processCount] == was + [p];
    }

    /** The fields of a fresh slot; no linked process notices. */
    method Fill(p: Process, initialRsp: nat, ghost s: Sched)
      requires Valid() && Is(s) && p !in ring && p in processes[..processCount]
      modifies this`nextPid, p
      ensures Valid() && Is(s)
      ensures p.state == Runnable && p.savedRsp == initialRsp
      ensures p.pid == old(nextPid) && nextPid == old(nextPid) + 1
    {
      p.pid := nextPid;
      nextPid := nextPid + 1;
      p.state := Runnable;
      p.next := null;
      p.savedRsp := initialRsp;
    }

    /** Puts p between run_list and the head of the cycle and makes it the new run_list. */
    method Link(p: Process, ghost s: Sched)
      requires Valid() && Is(s) && s.Valid()
      requires p !in ring && p in processes[..processCount] && |ring| < processCount
      requires p.state == Runnable
      modifies this`runList, this`ring, p`next, ring`next
      ensures Valid()
      ensures Is(Step(s, Event.Create(p.savedRsp)))
      ensures ring == old(ring) + [p]
    {
      ghost var was := ring;
      Consecutive();
      ring := ring + [p];
      if runList == null {
        runList := p;
        p.next := p;
      } else {
        p.next := runList.next;
        runList.next := p;
        runList := p;
      }
      forall i | 0 <= i < |ring| ensures ring[i].next == ring[NextIndex(i, |ring|)] {
        if i < |was| - 1 { assert was[i].next == was[i + 1]; }
      }
    }

    lemma Consecutive()
      requires Valid()
      ensures forall i {:trigger ring[i].next} :: 0 <= i < |ring| - 1 ==> ring[i].next == ring[i + 1]
      ensures runList != null ==> runList == ring[|ring| - 1] && runList.next == ring[0]
    {
      forall i | 0 <= i < |ring| ensures ring[i].next == ring[NextIndex(i, |ring|)] {
      }
      if |ring| > 0 { assert ring[|ring| - 1].next == ring[NextIndex(|ring| - 1, |ring|)]; }
    }

    /** Called once: starts the process created last. */
    method FirstRun(ghost s: Sched) returns (rsp: nat)
      requires Valid() && Is(s) && s.Valid() && current == null
      modifies this, Slots()
      ensures Valid() && ring == old(ring)
      ensures Is(Step(s, Event.FirstRun))
      ensures if ring == [] then current == null && rsp == 0
              else && rsp == s.saved[Step(s, Event.FirstRun).cur] == s.saved[|ring| - 1]
                   && current == ring[|ring| - 1] && current.savedRsp == rsp
    {
      if runList == null {
        return 0;
      }
      current := runList;
      current.state := Running;
      return current.savedRsp;
    }

    /** The timer interrupt: saves the interrupted stack pointer and moves on to the next
        process. A current process is always linked, so its next is never null. */
    method Tick(currentRsp: nat, ghost s: Sched) returns (rsp: nat)
      requires Valid() && Is(s) && s.Valid()
      modifies this, Slots()
      ensures Valid() && ring == old(ring)
      ensures Is(Step(s, Event.Tick(currentRsp)))
      ensures rsp == Resume(s, currentRsp)
      ensures if old(current) == null then current == null && rsp == currentRsp
              else && current != null && current == old(current.next) && old(current).savedRsp == currentRsp
                   && rsp == current.savedRsp
    {
      if current == null {
        return currentRsp;
      }
      assert current == ring[s.cur];
      current.savedRsp := currentRsp;
      current.state := Runnable;
      var next := current.next;
      assert next == ring[NextIndex(s.cur, |ring|)];
      current := next;
      current.state := Running;
      return current.savedRsp;
    }
  }
}
