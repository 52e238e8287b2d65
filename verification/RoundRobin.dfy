/** The scheduler's behaviour over runs. A process is its position in the run list, which only
    ever grows at the end; saved[i] is the stack pointer process i resumes with. */
module RoundRobin {

  datatype Sched = Sched(saved: seq<nat>, running: bool, cur: nat) {
    predicate Valid() { running ==> cur < |saved| }
  }

  datatype Event =
    | Create(rsp: nat)  // a process joins with its initial stack pointer
    | FirstRun
    | Tick(rsp: nat)    // timer interrupt, rsp is the interrupted stack pointer

  /** The list is circular. */
  function NextIndex(i: nat, n: nat): nat {
    if i + 1 == n then 0 else i + 1
  }

  function Step(s: Sched, e: Event): (t: Sched)
    requires s.Valid()
    ensures t.Valid() && |t.saved| >= |s.saved|
  {
    match e
    case Create(rsp) => s.(saved := s.saved + [rsp])
    case FirstRun => if |s.saved| == 0 then s else Sched(s.saved, true, |s.saved| - 1)
    case Tick(rsp) =>
      if !s.running then s
      else Sched(s.saved[s.cur := rsp], true, NextIndex(s.cur, |s.saved|))
  }

  /** What the tick returns: the stack pointer to switch to. */
  function Resume(s: Sched, rsp: nat): nat
    requires s.Valid()
  {
    if !s.running then rsp else var t := Step(s, Tick(rsp)); t.saved[t.cur]
  }

  /** The start makes the process created last current and leaves what every process resumes
      with. */
  lemma FirstRunMeans(s: Sched)
    requires s.Valid() && |s.saved| > 0
    ensures var t := Step(s, FirstRun);
            t.running && t.saved == s.saved && t.cur == |s.saved| - 1 && t.saved[t.cur] == s.saved[|s.saved| - 1]
    ensures forall rsp: nat :: Step(Step(s, Create(rsp)), FirstRun) == Sched(s.saved + [rsp], true, |s.saved|)
  {
  }

  /** A tick stores the interrupted stack pointer with the process it preempts and with no other,
      and resumes the next one round the ring, itself when it is alone. */
  lemma TickMeans(s: Sched, rsp: nat)
    requires s.Valid() && s.running
    ensures var t, n := Step(s, Tick(rsp)), |s.saved|;
            && t.running && |t.saved| == n && t.cur == (s.cur + 1) % n
            && (forall i :: 0 <= i < n ==> t.saved[i] == if i == s.cur then rsp else s.saved[i])
            && Resume(s, rsp) == if n == 1 then rsp else s.saved[(s.cur + 1) % n]
  {
    if s.cur + 1 == |s.saved| {
      assert (s.cur + 1) % |s.saved| == 0;
    } else {
      assert (s.cur + 1) % |s.saved| == s.cur + 1;
    }
  }

  function Exec(s: Sched, es: seq<Event>): (t: Sched)
    requires s.Valid()
    ensures t.Valid() && |t.saved| >= |s.saved|
    decreases |es|
  {
    if |es| == 0 then s else Step(Exec(s, es[..|es| - 1]), es[|es| - 1])
  }

  predicate OnlyTicks(es: seq<Event>) {
    forall i :: 0 <= i < |es| ==> es[i].Tick?
  }

  /** k <= n ticks move on by k places, wrapping once at most. */
  lemma {:induction false} TicksAdvance(s: Sched, es: seq<Event>)
    requires s.Valid() && s.running && OnlyTicks(es) && |es| <= |s.saved|
    ensures var t := Exec(s, es);
            && t.running && |t.saved| == |s.saved|
            && t.cur == if s.cur + |es| < |s.saved| then s.cur + |es| else s.cur + |es| - |s.saved|
    decreases |es|
  {
    if |es| > 0 {
      TicksAdvance(s, es[..|es| - 1]);
      assert es[|es| - 1].Tick?;
    }
  }

  /** Process i is current after k of the ticks es. */
  predicate CurrentAfter(s: Sched, es: seq<Event>, k: nat, i: nat)
    requires s.Valid() && k <= |es|
  {
    var t := Exec(s, es[..k]);
    t.running && t.cur == i
  }

  /** Fairness: in any n consecutive ticks of n processes each becomes current exactly once. */
  lemma Fairness(s: Sched, es: seq<Event>, i: nat)
    requires s.Valid() && s.running && OnlyTicks(es) && |es| == |s.saved| && i < |s.saved|
    ensures exists k :: 1 <= k <= |es| && CurrentAfter(s, es, k, i)
    ensures forall k, m :: 1 <= k <= |es| && 1 <= m <= |es| && CurrentAfter(s, es, k, i) && CurrentAfter(s, es, m, i) ==> k == m
  {
    var n := |s.saved|;
    var k := if i > s.cur then i - s.cur else i - s.cur + n;
    TicksAdvance(s, es[..k]);
    assert CurrentAfter(s, es, k, i);
    forall m | 1 <= m <= n && CurrentAfter(s, es, m, i) ensures m == k {
      TicksAdvance(s, es[..m]);
    }
  }

  /** Nothing but its own preemption changes what a process resumes with. */
  lemma {:induction false} SavedKept(s: Sched, es: seq<Event>, i: nat)
    requires s.Valid() && i < |s.saved|
    requires forall m :: 0 <= m < |es| ==> !(es[m].Tick? && CurrentAfter(s, es, m, i))
    ensures Exec(s, es).saved[i] == s.saved[i]
    decreases |es|
  {
    if |es| > 0 {
      var init := es[..|es| - 1];
      forall m | 0 <= m < |init| ensures !(init[m].Tick? && CurrentAfter(s, init, m, i)) {
        assert init[..m] == es[..m];
        assert !(es[m].Tick? && CurrentAfter(s, es, m, i));
      }
      SavedKept(s, init, i);
      assert es[..|es| - 1] == init;
      assert !(es[|es| - 1].Tick? && CurrentAfter(s, es, |es| - 1, i));
    }
  }

  /** A process preempted with stack pointer rsp resumes with rsp, whatever is created and
      whoever runs in between. Alone in the ring it is preempted by the very tick that resumes
      it, and goes on where that tick found it. */
  lemma ResumesWherePreempted(s: Sched, rsp: nat, es: seq<Event>, last: nat)
    requires s.Valid() && s.running
    requires forall m :: 0 <= m < |es| ==> !(es[m].Tick? && CurrentAfter(Step(s, Tick(rsp)), es, m, s.cur))
    requires var t := Exec(Step(s, Tick(rsp)), es);
             t.running && Step(t, Tick(last)).cur == s.cur
    ensures var t := Exec(Step(s, Tick(rsp)), es);
            Resume(t, last) == if t.cur == s.cur then last else rsp
  {
    SavedKept(Step(s, Tick(rsp)), es, s.cur);
  }

  /** A new process first resumes with its initial stack pointer, whether a tick or the first
      start of the scheduler picks it. */
  lemma ResumesInitially(s: Sched, rsp: nat, es: seq<Event>, last: nat)
    requires s.Valid()
    requires forall m :: 0 <= m < |es| ==> !(es[m].Tick? && CurrentAfter(Step(s, Create(rsp)), es, m, |s.saved|))
    ensures var t, i := Exec(Step(s, Create(rsp)), es), |s.saved|;
            && (t.running && t.cur != i && Step(t, Tick(last)).cur == i ==> Resume(t, last) == rsp)
            && (Step(t, FirstRun).cur == i ==> Step(t, FirstRun).saved[i] == rsp)
  {
    SavedKept(Step(s, Create(rsp)), es, |s.saved|);
  }
}
