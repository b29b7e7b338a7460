/**
 * dsProcess of ds.c: one cycle of the scheduler. The stages run in
 * reverse pipeline order (retire, execute, issue, dispatch, fetch), every
 * one of them runs whatever the others return, the cycle counter advances,
 * and the cycle reports TRUE when all five did.
 */
module Pipeline {
  import opened Scheduler
  import opened Dispatcher
  import Q = Container

  /** What one cycle yields: dsProcess's result, the records fakeRetire retires (and prints), and the state. */
  datatype Step = Step(done: bool, retired: seq<Inst>, st: Sched)

  /** The state after retire, execute, issue and dispatch, with the results of those four stages. */
  datatype Stages = Stages(retired: seq<Inst>, ok: bool, st: Sched)

  /** The four stages before fetch, each keeping the invariant for the next. */
  function FirstFour(p: Params, st: Sched): (r: Stages)
    requires Inv(st)
    ensures Inv(r.st)
    ensures r.st.cycle == st.cycle && r.st.trace == st.trace && r.st.seqNum == st.seqNum
    ensures r.ok <==> |r.st.rob.cells| == 0
    ensures r.ok ==> |r.st.dispatchList.cells| == 0
    ensures r.ok <==> |FakeRetire(st).2.rob.cells| == 0
    ensures r.retired == FakeRetire(st).1
  {
    var f := RetireExecute(st);
    var t := IssueDispatch(p, f.st);
    Stages(f.retired, f.ok && t.0, t.1)
  }

  /** fakeRetire, then execute. */
  function RetireExecute(st: Sched): (r: Stages)
    requires Inv(st)
    ensures Inv(r.st)
    ensures r.st.cycle == st.cycle && r.st.trace == st.trace && r.st.seqNum == st.seqNum
    ensures r.st.rob == FakeRetire(st).2.rob
    ensures r.ok <==> |r.st.rob.cells| == 0
    ensures r.retired == FakeRetire(st).1
  {
    var (a, out, s1) := FakeRetire(st);
    FakeRetireKeepsInv(st);
    var (b, s2) := Execute(s1);
    ExecuteKeepsInv(s1);
    EmptyRobEmptyLists(s2);
    Stages(out, a && b, s2)
  }

  /** issue, then dispatch: both report TRUE when the ROB, and so every list, is empty. */
  function IssueDispatch(p: Params, st: Sched): (r: (bool, Sched))
    requires Inv(st)
    ensures Inv(r.1)
    ensures r.1.cycle == st.cycle && r.1.trace == st.trace && r.1.seqNum == st.seqNum && r.1.rob == st.rob
    ensures |st.rob.cells| == 0 ==> r.0 && |r.1.dispatchList.cells| == 0
  {
    var (c, s3) := Issue(p, st);
    IssueKeepsInv(p, st);
    DispatchKeepsInv(p, s3);
    var (d, s4) := Dispatch(p, s3);
    EmptyRobEmptyLists(s3);
    EmptyRobEmptyLists(s4);
    (c && d, s4)
  }

  /** With an empty ROB every list is empty: each entry of a list is in the ROB. */
  lemma EmptyRobEmptyLists(st: Sched)
    requires Inv(st)
    ensures |st.rob.cells| == 0 ==>
      |st.dispatchList.cells| == 0 && |st.issueList.cells| == 0 && |st.executeList.cells| == 0
  {
    Q.DistinctSubsetLength(st.dispatchList.cells, st.rob.cells);
    Q.DistinctSubsetLength(st.issueList.cells, st.rob.cells);
    Q.DistinctSubsetLength(st.executeList.cells, st.rob.cells);
  }

  /** Advancing the cycle counter keeps the invariant, which does not mention it. */
  lemma TickKeepsInv(st: Sched)
    requires Inv(st)
    ensures Inv(st.(cycle := st.cycle + 1))
  {
    var st' := st.(cycle := st.cycle + 1);
    assert Holds(st', st'.dispatchList, IF, ID) && Holds(st', st'.issueList, IS, IS) && Holds(st', st'.executeList, EX, EX);
  }

  /** The state with the cycle counter advanced by one. */
  function Tick(st: Sched): (r: Sched)
    ensures r.cycle == st.cycle + 1 && r.(cycle := st.cycle) == st
  {
    st.(cycle := st.cycle + 1)
  }

  /** Fetch, then the advance of the cycle counter, keep the invariant. */
  lemma FetchTick(p: Params, st: Sched)
    requires Inv(st)
    ensures Inv(Tick(Fetch(p, st).1))
  {
    FetchLoopKeepsInv(p, st, 0);
    TickKeepsInv(Fetch(p, st).1);
  }

  /**
   * dsProcess, with fetch's end-of-trace result as evidently intended: one
   * cycle, which advances the cycle counter by one and retires what
   * fakeRetire retires.
   */
  function Process(p: Params, st: Sched): (r: Step)
    requires Inv(st)
    ensures r.st.cycle == st.cycle + 1
    ensures r.retired == FakeRetire(st).1
  {
    var f := FirstFour(p, st);
    var e := Fetch(p, f.st);
    Step(f.ok && e.0, f.retired, Tick(e.1))
  }

  /** A cycle keeps the invariant. */
  lemma ProcessKeepsInv(p: Params, st: Sched)
    requires Inv(st)
    ensures Inv(Process(p, st).st)
  {
    FetchTick(p, FirstFour(p, st).st);
  }

  /** dsProcess as written, with fetch returning TRUE whenever it meets the end of the trace. */
  function ProcessAsWritten(p: Params, st: Sched): Step
    requires Inv(st)
  {
    var f := FirstFour(p, st);
    var e := FetchAsWritten(p, f.st);
    Step(f.ok && e.0, f.retired, Tick(e.1))
  }

  /** The cycle as written differs from the corrected one only in its result. */
  lemma AsWrittenSameState(p: Params, st: Sched)
    requires Inv(st)
    ensures ProcessAsWritten(p, st).st == Process(p, st).st
    ensures ProcessAsWritten(p, st).retired == Process(p, st).retired
  {
  }

  /**
   * The simulation ends exactly when retiring empties the ROB, the trace
   * is used up and fetch may read (n at least 1).
   */
  lemma ProcessDone(p: Params, st: Sched)
    requires Inv(st)
    ensures Process(p, st).done <==> |FakeRetire(st).2.rob.cells| == 0 && st.trace == [] && p.n >= 1
  {
    var f := FirstFour(p, st);
    if f.ok {
      assert f.st.dispatchList.numElems == 0;
      assert FetchRoom(p, f.st, 0) == Min(p.n, 2 * p.n);
    }
  }

  /** When the simulation ends, the ROB, every list and the trace are empty. */
  lemma ProcessDoneEmpties(p: Params, st: Sched)
    requires Inv(st) && Process(p, st).done
    ensures var st' := Process(p, st).st;
      && |st'.rob.cells| == 0 && st'.trace == []
      && |st'.dispatchList.cells| == 0 && |st'.issueList.cells| == 0 && |st'.executeList.cells| == 0
  {
    var f := FirstFour(p, st);
    var e := Fetch(p, f.st);
    assert f.ok && e.0;
    assert e.1 == f.st by {
      assert FetchBudget(p, f.st, 0) == 0;
    }
    EmptyRobEmptyLists(f.st);
    assert Process(p, st).st == Tick(f.st);
  }

  /**
   * As written, the simulation ends once retiring empties the ROB and the
   * rest of the trace is shorter than what fetch may read in one cycle,
   * even when fetch has just read it.
   */
  lemma ProcessAsWrittenDone(p: Params, st: Sched)
    requires Inv(st)
    ensures ProcessAsWritten(p, st).done <==> |FakeRetire(st).2.rob.cells| == 0 && |st.trace| < Min(p.n, 2 * p.n)
  {
    var f := FirstFour(p, st);
    if f.ok {
      assert f.st.dispatchList.numElems == 0;
      assert FetchRoom(p, f.st, 0) == Min(p.n, 2 * p.n);
    }
  }

  /**
   * The discrepancy: from a state with an empty ROB and a trace of one
   * line, with n = 2, the cycle as written reports the simulation over
   * although the line was just fetched and sits in the ROB, never to
   * retire; the corrected cycle goes on.
   */
  lemma AsWrittenStopsEarly(p: Params, st: Sched)
    requires Inv(st) && |st.rob.cells| == 0 && |st.trace| == 1 && p.n == 2
    ensures ProcessAsWritten(p, st).done
    ensures |ProcessAsWritten(p, st).st.rob.cells| == 1
    ensures !Process(p, st).done
  {
    ProcessAsWrittenDone(p, st);
    ProcessDone(p, st);
    var f := FirstFour(p, st);
    EmptyRobEmptyLists(f.st);
    assert f.st.dispatchList.numElems == 0;
    assert FetchBudget(p, f.st, 0) == 1;
  }
}
