/**
 * dispatch of ds.c: the entries of the dispatch list still in IF move to
 * ID (the one-cycle fetch latency); those already in ID move, while the
 * scheduling queue has room, to IS and onto the issue list, their source
 * operands renamed through the register file and their destination
 * claimed in it.
 */
module Dispatcher {
  import opened Scheduler
  import Q = Container

  /** The register file: a ready bit and a map-table entry per architectural register. */
  datatype RegFile = RegFile(ready: seq<bool>, mapTable: seq<int>)
  {
    predicate Full() {
      |ready| == NumRegs && |mapTable| == NumRegs
    }
  }

  /** What the dispatch loop changes: the records, the dispatch and issue lists and the register file. */
  datatype Dispatching = Dispatching(insts: map<nat, Inst>, dispatchList: Q.Fifo<nat>, issueList: Q.Fifo<nat>, regs: RegFile)

  /** Registers in range, so that renaming can index the register file with them. */
  predicate Renamable(i: Inst) {
    RegOk(i.src1) && RegOk(i.src2) && RegOk(i.dst)
  }

  // ---------------------------------------------------------------------
  // The walk over the dispatch list (dsDispatcher)
  // ---------------------------------------------------------------------

  /** The record moved to ID this cycle (dsDispatcher's else branch). */
  function ToID(i: Inst, cycle: int): (x: Inst)
    ensures x.stage == ID && x.idStart == cycle && x.ifDuration == cycle - i.ifStart
    ensures x == i.(ifDuration := x.ifDuration, idStart := x.idStart, stage := ID)
  {
    i.(ifDuration := cycle - i.ifStart, idStart := cycle, stage := ID)
  }

  /**
   * dsDispatcher over the handles: each entry not in ID moves there. An
   * entry's move depends only on its own record, so the visiting order
   * does not matter, and visiting an entry twice changes nothing more.
   */
  function Promote(insts: map<nat, Inst>, cells: seq<nat>, cycle: int): (r: map<nat, Inst>)
    requires forall k :: k in cells ==> k in insts
    decreases |cells|
    ensures forall j :: j in r <==> j in insts
    ensures forall j :: j in insts ==>
      r[j] == if j in cells && insts[j].stage != ID then ToID(insts[j], cycle) else insts[j]
  {
    if |cells| == 0 then insts
    else
      var k := cells[0];
      var insts1 := if insts[k].stage == ID then insts else insts[k := ToID(insts[k], cycle)];
      var r := Promote(insts1, cells[1..], cycle);
      assert forall j :: j in cells <==> j == k || j in cells[1..];
      r
  }

  /** A handle whose record is in ID. */
  function InID(insts: map<nat, Inst>): nat -> bool {
    k => k in insts && insts[k].stage == ID
  }

  /**
   * The entries dispatch considers, in the order the loop pops them from
   * tempQ: those of the dispatch list that were in ID when the walk
   * reached them, which, as the list has no repeats, are those in ID
   * before the walk.
   */
  function ToDispatch(p: Params, st: Sched): (r: seq<nat>)
    ensures forall k :: k in r <==> k in st.dispatchList.cells && k in st.insts && st.insts[k].stage == ID
    ensures Q.Distinct(st.dispatchList.cells) ==> Q.Distinct(r)
  {
    Collected(st.dispatchList, p.order, InID(st.insts))
  }

  // ---------------------------------------------------------------------
  // Renaming
  // ---------------------------------------------------------------------

  /** ID to IS (the first three assignments of the dispatch loop). */
  function ToIS(i: Inst, cycle: int): (x: Inst)
    ensures x.stage == IS && x.isStart == cycle && x.idDuration == cycle - i.idStart
    ensures x == i.(idDuration := x.idDuration, isStart := x.isStart, stage := IS)
  {
    i.(idDuration := cycle - i.idStart, isStart := cycle, stage := IS)
  }

  /**
   * Renaming one source operand: none (-1) stays as it is; a ready
   * register keeps its number and the operand is marked ready; otherwise
   * the operand takes the tag the map table holds for the register.
   */
  function RenameSrc(src: int, flag: bool, regs: RegFile): (int, bool)
    requires regs.Full() && RegOk(src)
  {
    if src == -1 then (src, flag)
    else if regs.ready[src] then (src, true)
    else (regs.mapTable[src], flag)
  }

  /** Both source operands renamed against the register file. */
  function Renamed(i: Inst, regs: RegFile): Inst
    requires regs.Full() && RegOk(i.src1) && RegOk(i.src2)
  {
    var a, b := RenameSrc(i.src1, i.src1Ready, regs), RenameSrc(i.src2, i.src2Ready, regs);
    i.(src1 := a.0, src1Ready := a.1, src2 := b.0, src2Ready := b.1)
  }

  /** Renaming the destination: the register stops being ready and maps to the writer's tag. */
  function Claim(regs: RegFile, i: Inst): (r: RegFile)
    requires regs.Full() && RegOk(i.dst)
    ensures r.Full()
  {
    if i.dst == -1 then regs else RegFile(regs.ready[i.dst := false], regs.mapTable[i.dst := i.seqNum])
  }

  /** Claim for the records of xs in turn. */
  function ClaimAll(regs: RegFile, insts: map<nat, Inst>, xs: seq<nat>): (r: RegFile)
    requires regs.Full() && forall k :: k in xs ==> k in insts && RegOk(insts[k].dst)
    decreases |xs|
    ensures r.Full()
  {
    if |xs| == 0 then regs else ClaimAll(Claim(regs, insts[xs[0]]), insts, xs[1..])
  }

  /** A register none of the records of xs writes keeps its ready bit and its map-table entry. */
  lemma {:induction false} ClaimAllUntouched(regs: RegFile, insts: map<nat, Inst>, xs: seq<nat>, r: nat)
    requires regs.Full() && forall k :: k in xs ==> k in insts && RegOk(insts[k].dst)
    requires r < NumRegs && forall i :: 0 <= i < |xs| ==> insts[xs[i]].dst != r
    decreases |xs|
    ensures ClaimAll(regs, insts, xs).ready[r] == regs.ready[r]
    ensures ClaimAll(regs, insts, xs).mapTable[r] == regs.mapTable[r]
  {
    if |xs| > 0 {
      ClaimAllUntouched(Claim(regs, insts[xs[0]]), insts, xs[1..], r);
    }
  }

  /**
   * A register written by the record at index i of xs and by none after it
   * is not ready afterwards and maps to that record's tag.
   */
  lemma {:induction false} ClaimAllLastWriter(regs: RegFile, insts: map<nat, Inst>, xs: seq<nat>, r: nat, i: nat)
    requires regs.Full() && forall k :: k in xs ==> k in insts && RegOk(insts[k].dst)
    requires r < NumRegs && i < |xs| && insts[xs[i]].dst == r
    requires forall i' :: i < i' < |xs| ==> insts[xs[i']].dst != r
    decreases |xs|
    ensures !ClaimAll(regs, insts, xs).ready[r]
    ensures ClaimAll(regs, insts, xs).mapTable[r] == insts[xs[i]].seqNum
  {
    var regs1 := Claim(regs, insts[xs[0]]);
    if i == 0 {
      ClaimAllUntouched(regs1, insts, xs[1..], r);
    } else {
      ClaimAllLastWriter(regs1, insts, xs[1..], r, i - 1);
    }
  }

  /** ClaimAll reads only the records of xs. */
  lemma {:induction false} ClaimAllSame(regs: RegFile, a: map<nat, Inst>, b: map<nat, Inst>, xs: seq<nat>)
    requires regs.Full() && forall k :: k in xs ==> k in a && k in b && a[k] == b[k] && RegOk(a[k].dst)
    decreases |xs|
    ensures ClaimAll(regs, a, xs) == ClaimAll(regs, b, xs)
  {
    if |xs| > 0 {
      ClaimAllSame(Claim(regs, a[xs[0]]), a, b, xs[1..]);
    }
  }

  // ---------------------------------------------------------------------
  // The dispatch loop
  // ---------------------------------------------------------------------

  /**
   * One iteration of the dispatch loop for handle k: the record moves to
   * IS with its sources renamed, its destination is claimed, and the
   * handle goes from the dispatch list to the issue list.
   */
  function MoveOne(cycle: int, d: Dispatching, k: nat): (d': Dispatching)
    requires d.regs.Full() && d.dispatchList.Valid() && d.issueList.Valid()
    requires k in d.insts && Renamable(d.insts[k])
    ensures d'.regs.Full() && d'.dispatchList.Valid() && d'.issueList.Valid()
    ensures forall j :: j in d'.insts <==> j in d.insts
    ensures forall j :: j in d.insts && j != k ==> d'.insts[j] == d.insts[j]
    ensures d'.insts[k].dst == d.insts[k].dst && d'.insts[k].kind == d.insts[k].kind && d'.insts[k].seqNum == d.insts[k].seqNum
  {
    var i := d.insts[k];
    Dispatching(d.insts[k := Renamed(ToIS(i, cycle), d.regs)], Q.RemoveItem(d.dispatchList, k), Q.Push(d.issueList, k), Claim(d.regs, i))
  }

  /**
   * The dispatch loop: while the issue list holds fewer than s entries and
   * candidates remain, the next candidate moves.
   */
  function DispatchLoop(p: Params, cycle: int, d: Dispatching, cands: seq<nat>): (d': Dispatching)
    requires d.regs.Full() && d.dispatchList.Valid() && d.issueList.Valid()
    requires Q.Distinct(cands) && forall k :: k in cands ==> k in d.insts && Renamable(d.insts[k])
    decreases |cands|
    ensures d'.regs.Full() && d'.dispatchList.Valid() && d'.issueList.Valid()
    ensures forall j :: j in d'.insts <==> j in d.insts
  {
    if d.issueList.numElems < p.s && |cands| > 0 then
      Q.DistinctTail(cands);
      DispatchLoop(p, cycle, MoveOne(cycle, d, cands[0]), cands[1..])
    else d
  }

  /** How many candidates the loop moves: all of them, or as many as the room left below s allows. */
  function DispatchCount(p: Params, issue: Q.Fifo<nat>, cands: seq<nat>): (m: nat)
    ensures m <= |cands| && (m > 0 ==> issue.numElems + m <= p.s)
    ensures m == |cands| || issue.numElems + m >= p.s
  {
    if p.s - issue.numElems <= 0 then 0 else Min(p.s - issue.numElems, |cands|)
  }

  /** The dispatch loop unlinks the first DispatchCount candidates from the dispatch list, in turn. */
  lemma {:induction false} DispatchLoopRemoves(p: Params, cycle: int, d: Dispatching, cands: seq<nat>)
    requires d.regs.Full() && d.dispatchList.Valid() && d.issueList.Valid()
    requires Q.Distinct(cands) && forall k :: k in cands ==> k in d.insts && Renamable(d.insts[k])
    decreases |cands|
    ensures DispatchLoop(p, cycle, d, cands).dispatchList == Q.RemoveAll(d.dispatchList, cands[..DispatchCount(p, d.issueList, cands)])
  {
    var m := DispatchCount(p, d.issueList, cands);
    if d.issueList.numElems < p.s && |cands| > 0 {
      var k := cands[0];
      Q.DistinctTail(cands);
      var d1 := MoveOne(cycle, d, k);
      DispatchLoopRemoves(p, cycle, d1, cands[1..]);
      assert DispatchCount(p, d1.issueList, cands[1..]) == m - 1;
      assert cands[..m][0] == k && cands[..m][1..] == cands[1..][..m - 1];
    } else {
      assert m == 0;
    }
  }

  /** The dispatch loop pushes the first DispatchCount candidates on the issue list, in turn. */
  lemma {:induction false} DispatchLoopPushes(p: Params, cycle: int, d: Dispatching, cands: seq<nat>)
    requires d.regs.Full() && d.dispatchList.Valid() && d.issueList.Valid()
    requires Q.Distinct(cands) && forall k :: k in cands ==> k in d.insts && Renamable(d.insts[k])
    decreases |cands|
    ensures DispatchLoop(p, cycle, d, cands).issueList == Q.PushAll(d.issueList, cands[..DispatchCount(p, d.issueList, cands)])
  {
    var m := DispatchCount(p, d.issueList, cands);
    if d.issueList.numElems < p.s && |cands| > 0 {
      var k := cands[0];
      Q.DistinctTail(cands);
      var d1 := MoveOne(cycle, d, k);
      DispatchLoopPushes(p, cycle, d1, cands[1..]);
      assert DispatchCount(p, d1.issueList, cands[1..]) == m - 1;
      assert cands[..m][0] == k && cands[..m][1..] == cands[1..][..m - 1];
    } else {
      assert m == 0;
    }
  }

  /** The register file after the loop: the destinations of the moved candidates claimed in turn. */
  lemma {:induction false} DispatchLoopRegs(p: Params, cycle: int, d: Dispatching, cands: seq<nat>)
    requires d.regs.Full() && d.dispatchList.Valid() && d.issueList.Valid()
    requires Q.Distinct(cands) && forall k :: k in cands ==> k in d.insts && Renamable(d.insts[k])
    decreases |cands|
    ensures DispatchLoop(p, cycle, d, cands).regs == ClaimAll(d.regs, d.insts, cands[..DispatchCount(p, d.issueList, cands)])
  {
    var m := DispatchCount(p, d.issueList, cands);
    if d.issueList.numElems < p.s && |cands| > 0 {
      var k := cands[0];
      Q.DistinctTail(cands);
      var d1 := MoveOne(cycle, d, k);
      DispatchLoopRegs(p, cycle, d1, cands[1..]);
      assert DispatchCount(p, d1.issueList, cands[1..]) == m - 1;
      assert cands[..m][0] == k && cands[..m][1..] == cands[1..][..m - 1];
      ClaimAllSame(d1.regs, d1.insts, d.insts, cands[1..][..m - 1]);
    } else {
      assert m == 0;
    }
  }

  /** A record the loop does not move keeps its state. */
  lemma {:induction false} DispatchLoopKept(p: Params, cycle: int, d: Dispatching, cands: seq<nat>, j: nat)
    requires d.regs.Full() && d.dispatchList.Valid() && d.issueList.Valid()
    requires Q.Distinct(cands) && forall k :: k in cands ==> k in d.insts && Renamable(d.insts[k])
    requires j in d.insts && j !in cands[..DispatchCount(p, d.issueList, cands)]
    decreases |cands|
    ensures DispatchLoop(p, cycle, d, cands).insts[j] == d.insts[j]
  {
    var m := DispatchCount(p, d.issueList, cands);
    if d.issueList.numElems < p.s && |cands| > 0 {
      var k := cands[0];
      Q.DistinctTail(cands);
      var d1 := MoveOne(cycle, d, k);
      assert DispatchCount(p, d1.issueList, cands[1..]) == m - 1;
      assert cands[..m] == [k] + cands[1..][..m - 1];
      DispatchLoopKept(p, cycle, d1, cands[1..], j);
    }
  }

  /** The first candidate, when the loop moves it, is renamed against the register file as it was. */
  lemma DispatchLoopMovedHead(p: Params, cycle: int, d: Dispatching, cands: seq<nat>)
    requires d.regs.Full() && d.dispatchList.Valid() && d.issueList.Valid()
    requires Q.Distinct(cands) && forall k :: k in cands ==> k in d.insts && Renamable(d.insts[k])
    requires 0 < DispatchCount(p, d.issueList, cands)
    ensures DispatchLoop(p, cycle, d, cands).insts[cands[0]] == Renamed(ToIS(d.insts[cands[0]], cycle), d.regs)
  {
    var m := DispatchCount(p, d.issueList, cands);
    var k, rest := cands[0], cands[1..];
    Q.DistinctTail(cands);
    var d1 := MoveOne(cycle, d, k);
    assert DispatchCount(p, d1.issueList, rest) == m - 1;
    assert k !in rest[..m - 1];
    DispatchLoopKept(p, cycle, d1, rest, k);
  }

  /**
   * The record of candidate i as the loop leaves it when it moves it: in
   * IS, with its sources renamed against the register file as the
   * candidates before it left it.
   */
  function MovedRecord(cycle: int, insts: map<nat, Inst>, regs: RegFile, cands: seq<nat>, i: nat): Inst
    requires regs.Full() && i < |cands|
    requires forall k :: k in cands ==> k in insts && Renamable(insts[k])
  {
    assert cands[i] in cands;
    forall k | k in cands[..i] ensures k in insts && RegOk(insts[k].dst) {
      var j :| 0 <= j < i && cands[..i][j] == k;
      assert cands[j] == k && k in cands;
      assert Renamable(insts[k]);
    }
    var x := insts[cands[i]];
    assert Renamable(x);
    Renamed(ToIS(x, cycle), ClaimAll(regs, insts, cands[..i]))
  }

  /** MovedRecord after the first candidate has moved. */
  lemma MovedRecordStep(p: Params, cycle: int, d: Dispatching, cands: seq<nat>, i: nat)
    requires d.regs.Full() && d.dispatchList.Valid() && d.issueList.Valid()
    requires Q.Distinct(cands) && forall k :: k in cands ==> k in d.insts && Renamable(d.insts[k])
    requires 0 < i < |cands|
    ensures Q.Distinct(cands[1..])
    ensures MovedRecord(cycle, d.insts, d.regs, cands, i) == MovedRecord(cycle, MoveOne(cycle, d, cands[0]).insts, MoveOne(cycle, d, cands[0]).regs, cands[1..], i - 1)
  {
    var k, rest := cands[0], cands[1..];
    Q.DistinctTail(cands);
    var d1 := MoveOne(cycle, d, k);
    assert rest[i - 1] == cands[i] && cands[i] != k;
    assert cands[..i][0] == k && cands[..i][1..] == rest[..i - 1];
    ClaimAllSame(d1.regs, d1.insts, d.insts, rest[..i - 1]);
  }

  /**
   * The candidate at index i < DispatchCount moves to IS with its sources
   * renamed against the register file as the candidates before it left
   * it: an earlier candidate of the same cycle that writes a source
   * register is seen through the map table.
   */
  lemma {:induction false} DispatchLoopMoved(p: Params, cycle: int, d: Dispatching, cands: seq<nat>, i: nat)
    requires d.regs.Full() && d.dispatchList.Valid() && d.issueList.Valid()
    requires Q.Distinct(cands) && forall k :: k in cands ==> k in d.insts && Renamable(d.insts[k])
    requires i < DispatchCount(p, d.issueList, cands)
    decreases |cands|
    ensures DispatchLoop(p, cycle, d, cands).insts[cands[i]] == MovedRecord(cycle, d.insts, d.regs, cands, i)
  {
    if i == 0 {
      DispatchLoopMovedHead(p, cycle, d, cands);
      assert cands[..0] == [];
    } else {
      var d1 := MoveOne(cycle, d, cands[0]);
      MovedRecordStep(p, cycle, d, cands, i);
      assert DispatchCount(p, d1.issueList, cands[1..]) == DispatchCount(p, d.issueList, cands) - 1;
      DispatchLoopMoved(p, cycle, d1, cands[1..], i - 1);
    }
  }

  // ---------------------------------------------------------------------
  // dispatch over a whole cycle
  // ---------------------------------------------------------------------

  /** The scheduler's register file. */
  function RegsOf(st: Sched): RegFile {
    RegFile(st.ready, st.mapTable)
  }

  /**
   * What dispatch needs: known records, valid lists, no repeats in the
   * dispatch list, and in-range registers in the records it may rename.
   */
  predicate Dispatchable(st: Sched) {
    && Known(st) && st.dispatchList.Valid() && st.issueList.Valid()
    && Q.Distinct(st.dispatchList.cells)
    && forall k :: k in st.dispatchList.cells && k in st.insts && st.insts[k].stage == ID ==> Renamable(st.insts[k])
  }

  /** The invariant provides what dispatch needs. */
  lemma InvDispatchable(st: Sched)
    requires Inv(st)
    ensures Dispatchable(st)
  {
    forall k | k in st.dispatchList.cells && k in st.insts && st.insts[k].stage == ID ensures Renamable(st.insts[k]) {
      assert InstOk(k, st.insts[k]);
    }
  }

  /**
   * The entries dispatch moves to IS, in the order it moves them: the
   * first candidates, as many as the issue list has room for below s.
   */
  function Dispatched(p: Params, st: Sched): (r: seq<nat>)
    ensures forall k :: k in r ==> k in ToDispatch(p, st)
    ensures Q.Distinct(ToDispatch(p, st)) ==> Q.Distinct(r)
  {
    var c := ToDispatch(p, st);
    var m := DispatchCount(p, st.issueList, c);
    Q.PrefixMembers(c, m);
    c[..m]
  }

  /**
   * The moved entries are entries of the dispatch list in ID; the issue
   * list stays within s; and an entry in ID that did not move was held
   * back because the issue list had filled to s.
   */
  lemma DispatchedRoom(p: Params, st: Sched)
    ensures forall k :: k in Dispatched(p, st) ==> k in st.dispatchList.cells && k in st.insts && st.insts[k].stage == ID
    ensures |Dispatched(p, st)| == 0 || st.issueList.numElems + |Dispatched(p, st)| <= p.s
    ensures forall k :: k in st.dispatchList.cells && k in st.insts && st.insts[k].stage == ID && k !in Dispatched(p, st) ==>
      st.issueList.numElems + |Dispatched(p, st)| >= p.s
  {
    var c := ToDispatch(p, st);
    var m := DispatchCount(p, st.issueList, c);
    assert m == |c| ==> c[..m] == c;
  }

  /** The loop's starting point: the records after the walk, the lists and the register file. */
  function DispatchStart(st: Sched): (d: Dispatching)
    requires Dispatchable(st)
    ensures d.regs.Full() && d.dispatchList.Valid() && d.issueList.Valid()
    ensures forall j :: j in d.insts <==> j in st.insts
  {
    Dispatching(Promote(st.insts, st.dispatchList.cells, st.cycle), st.dispatchList, st.issueList, RegsOf(st))
  }

  /** The walk leaves the records dispatch may move as they were. */
  lemma StartKeepsCandidates(p: Params, st: Sched)
    requires Dispatchable(st)
    ensures Q.Distinct(ToDispatch(p, st))
    ensures forall k :: k in ToDispatch(p, st) ==>
      k in DispatchStart(st).insts && DispatchStart(st).insts[k] == st.insts[k] && Renamable(st.insts[k])
  {
  }

  /** The walk, then the loop over the candidates. */
  function DispatchCore(p: Params, st: Sched): (d: Dispatching)
    requires Dispatchable(st)
    ensures d.regs.Full() && d.dispatchList.Valid() && d.issueList.Valid()
    ensures forall j :: j in d.insts <==> j in st.insts
  {
    StartKeepsCandidates(p, st);
    DispatchLoop(p, st.cycle, DispatchStart(st), ToDispatch(p, st))
  }

  /**
   * dispatch: the walk over the dispatch list, then the loop that moves
   * the candidates while the issue list has room. Returns TRUE when the
   * dispatch list is then empty; only the records, the two lists and the
   * register file change.
   */
  function Dispatch(p: Params, st: Sched): (r: (bool, Sched))
    requires Dispatchable(st)
    ensures r.1.dispatchList.Valid() && r.1.issueList.Valid()
    ensures |r.1.ready| == NumRegs && |r.1.mapTable| == NumRegs
    ensures forall j :: j in r.1.insts <==> j in st.insts
    ensures r.1 == st.(insts := r.1.insts, dispatchList := r.1.dispatchList, issueList := r.1.issueList,
                       ready := r.1.ready, mapTable := r.1.mapTable)
    ensures r.0 <==> |r.1.dispatchList.cells| == 0
  {
    var d := DispatchCore(p, st);
    var st' := st.(insts := d.insts, dispatchList := d.dispatchList, issueList := d.issueList,
                   ready := d.regs.ready, mapTable := d.regs.mapTable);
    (st'.dispatchList.numElems == 0, st')
  }

  /**
   * dispatch, for the lists: the moved entries leave the dispatch list and
   * go on top of the issue list in the order they moved.
   */
  lemma DispatchLists(p: Params, st: Sched)
    requires Dispatchable(st)
    ensures var st', moved := Dispatch(p, st).1, Dispatched(p, st);
      && Q.Distinct(st'.dispatchList.cells)
      && (forall j :: j in st'.dispatchList.cells <==> j in st.dispatchList.cells && j !in moved)
      && st'.issueList.cells == Q.Reverse(moved) + st.issueList.cells
  {
    var moved := Dispatched(p, st);
    StartKeepsCandidates(p, st);
    DispatchLoopRemoves(p, st.cycle, DispatchStart(st), ToDispatch(p, st));
    DispatchLoopPushes(p, st.cycle, DispatchStart(st), ToDispatch(p, st));
    Q.RemoveAllMembers(st.dispatchList, moved);
    Q.PushAllCells(st.issueList, moved);
  }

  /** dispatch, for the register file: the destinations of the moved entries are claimed in turn. */
  lemma DispatchRegs(p: Params, st: Sched)
    requires Dispatchable(st)
    ensures forall k :: k in Dispatched(p, st) ==> k in st.insts && RegOk(st.insts[k].dst)
    ensures RegsOf(Dispatch(p, st).1) == ClaimAll(RegsOf(st), st.insts, Dispatched(p, st))
  {
    StartKeepsCandidates(p, st);
    DispatchLoopRegs(p, st.cycle, DispatchStart(st), ToDispatch(p, st));
    ClaimAllSame(RegsOf(st), DispatchStart(st).insts, st.insts, Dispatched(p, st));
  }

  /**
   * dispatch, for a record it does not move to IS: one in IF on the
   * dispatch list enters ID this cycle; any other stays as it was.
   */
  lemma DispatchKept(p: Params, st: Sched, j: nat)
    requires Dispatchable(st) && j in st.insts && j !in Dispatched(p, st)
    ensures Dispatch(p, st).1.insts[j] ==
      if j in st.dispatchList.cells && st.insts[j].stage != ID then ToID(st.insts[j], st.cycle) else st.insts[j]
  {
    StartKeepsCandidates(p, st);
    DispatchLoopKept(p, st.cycle, DispatchStart(st), ToDispatch(p, st), j);
  }

  /**
   * dispatch, for the entry it moves i-th: in IS from this cycle, its
   * sources renamed against the register file as the entries moved before
   * it left it.
   */
  lemma DispatchMoved(p: Params, st: Sched, i: nat)
    requires Dispatchable(st) && i < |Dispatched(p, st)|
    ensures forall k :: k in Dispatched(p, st) ==> k in st.insts && Renamable(st.insts[k])
    ensures Dispatch(p, st).1.insts[Dispatched(p, st)[i]] == MovedRecord(st.cycle, st.insts, RegsOf(st), Dispatched(p, st), i)
  {
    var moved, cands := Dispatched(p, st), ToDispatch(p, st);
    var m := DispatchCount(p, st.issueList, cands);
    StartKeepsCandidates(p, st);
    assert Dispatch(p, st).1.insts[moved[i]] == MovedRecord(st.cycle, DispatchStart(st).insts, RegsOf(st), cands, i) by {
      DispatchLoopMoved(p, st.cycle, DispatchStart(st), cands, i);
    }
    assert MovedRecord(st.cycle, DispatchStart(st).insts, RegsOf(st), cands, i) == MovedRecord(st.cycle, st.insts, RegsOf(st), cands, i) by {
      MovedRecordStart(p, st, i);
    }
    assert moved == cands[..m];
    MovedRecordPrefix(st.cycle, st.insts, RegsOf(st), cands, m, i);
  }

  /** MovedRecord reads only the candidates up to index i. */
  lemma MovedRecordPrefix(cycle: int, insts: map<nat, Inst>, regs: RegFile, cands: seq<nat>, m: nat, i: nat)
    requires regs.Full() && i < m <= |cands|
    requires forall k :: k in cands ==> k in insts && Renamable(insts[k])
    ensures forall k :: k in cands[..m] ==> k in insts && Renamable(insts[k])
    ensures MovedRecord(cycle, insts, regs, cands, i) == MovedRecord(cycle, insts, regs, cands[..m], i)
  {
    Q.PrefixMembers(cands, m);
    assert cands[..m][..i] == cands[..i] && cands[..m][i] == cands[i];
  }

  /** The record the loop makes of candidate i, in terms of the records before the walk. */
  lemma MovedRecordStart(p: Params, st: Sched, i: nat)
    requires Dispatchable(st) && i < |ToDispatch(p, st)|
    ensures forall k :: k in ToDispatch(p, st) ==> k in st.insts && Renamable(st.insts[k])
    ensures MovedRecord(st.cycle, DispatchStart(st).insts, RegsOf(st), ToDispatch(p, st), i)
         == MovedRecord(st.cycle, st.insts, RegsOf(st), ToDispatch(p, st), i)
  {
    var cands := ToDispatch(p, st);
    StartKeepsCandidates(p, st);
    Q.PrefixMembers(cands, i);
    ClaimAllSame(RegsOf(st), DispatchStart(st).insts, st.insts, cands[..i]);
  }

  // ---------------------------------------------------------------------
  // The register file after dispatch, and renaming
  // ---------------------------------------------------------------------

  /** A register no moved entry writes keeps its ready bit and map-table entry. */
  lemma DispatchLeavesRegister(p: Params, st: Sched, r: nat)
    requires Dispatchable(st) && r < NumRegs
    requires forall k :: k in Dispatched(p, st) ==> st.insts[k].dst != r
    ensures Dispatch(p, st).1.ready[r] == st.ready[r]
    ensures Dispatch(p, st).1.mapTable[r] == st.mapTable[r]
  {
    var moved := Dispatched(p, st);
    DispatchRegs(p, st);
    var regs := ClaimAll(RegsOf(st), st.insts, moved);
    assert regs.ready[r] == st.ready[r] && regs.mapTable[r] == st.mapTable[r] by {
      forall w | 0 <= w < |moved| ensures st.insts[moved[w]].dst != r {
        assert moved[w] in moved;
      }
      ClaimAllUntouched(RegsOf(st), st.insts, moved, r);
    }
  }

  /**
   * A register written by the i-th moved entry and by none moved after it
   * is not ready after dispatch and maps to that entry's tag.
   */
  lemma DispatchClaimsRegister(p: Params, st: Sched, r: nat, i: nat)
    requires Dispatchable(st) && r < NumRegs && i < |Dispatched(p, st)|
    requires st.insts[Dispatched(p, st)[i]].dst == r
    requires forall i' :: i < i' < |Dispatched(p, st)| ==> st.insts[Dispatched(p, st)[i']].dst != r
    ensures !Dispatch(p, st).1.ready[r]
    ensures Dispatch(p, st).1.mapTable[r] == st.insts[Dispatched(p, st)[i]].seqNum
  {
    var moved := Dispatched(p, st);
    DispatchRegs(p, st);
    ClaimAllLastWriter(RegsOf(st), st.insts, moved, r, i);
  }

  /** The destinations of a prefix of the candidates are in range. */
  lemma PrefixClaimable(insts: map<nat, Inst>, xs: seq<nat>, i: nat)
    requires i <= |xs| && forall k :: k in xs ==> k in insts && Renamable(insts[k])
    ensures forall k :: k in xs[..i] ==> k in insts && RegOk(insts[k].dst)
  {
    Q.PrefixMembers(xs, i);
    forall k | k in xs[..i] ensures k in insts && RegOk(insts[k].dst) {
      assert Renamable(insts[k]);
    }
  }

  /**
   * Renaming after earlier candidates have claimed their destinations: a
   * source last written by candidate w takes w's tag, its flag unchanged.
   */
  lemma MovedFromEarlier(cycle: int, insts: map<nat, Inst>, regs: RegFile, xs: seq<nat>, i: nat, second: bool, w: nat)
    requires regs.Full() && w < i < |xs| && forall k :: k in xs ==> k in insts && Renamable(insts[k])
    requires var r := Src(insts[xs[i]], second);
      && r != -1 && insts[xs[w]].dst == r
      && forall w' :: w < w' < i ==> insts[xs[w']].dst != r
    ensures Src(MovedRecord(cycle, insts, regs, xs, i), second) == insts[xs[w]].seqNum
    ensures SrcReady(MovedRecord(cycle, insts, regs, xs, i), second) == SrcReady(insts[xs[i]], second)
  {
    var x := insts[xs[i]];
    assert xs[i] in xs && Renamable(x);
    PrefixClaimable(insts, xs, i);
    assert xs[..i][w] == xs[w];
    ClaimAllLastWriter(regs, insts, xs[..i], Src(x, second), w);
  }

  /**
   * Renaming a source no earlier candidate writes: it is renamed against
   * the register file as it was before the loop.
   */
  lemma MovedFromFile(cycle: int, insts: map<nat, Inst>, regs: RegFile, xs: seq<nat>, i: nat, second: bool)
    requires regs.Full() && i < |xs| && forall k :: k in xs ==> k in insts && Renamable(insts[k])
    requires var r := Src(insts[xs[i]], second);
      r == -1 || forall w :: 0 <= w < i ==> insts[xs[w]].dst != r
    ensures var x, x' := insts[xs[i]], MovedRecord(cycle, insts, regs, xs, i);
      var r := Src(x, second);
      && (r == -1 ==> Src(x', second) == -1 && SrcReady(x', second) == SrcReady(x, second))
      && (r != -1 && regs.ready[r] ==> Src(x', second) == r && SrcReady(x', second))
      && (r != -1 && !regs.ready[r] ==> Src(x', second) == regs.mapTable[r] && SrcReady(x', second) == SrcReady(x, second))
  {
    var x := insts[xs[i]];
    assert xs[i] in xs && Renamable(x);
    PrefixClaimable(insts, xs, i);
    var r := Src(x, second);
    if r != -1 {
      ClaimAllUntouched(regs, insts, xs[..i], r);
    }
  }

  /**
   * Read after write within one cycle: when an entry moved before the
   * i-th is the last of them to write the register the i-th reads, the
   * operand becomes that entry's tag and is not marked ready.
   */
  lemma DispatchRenamesFromEarlier(p: Params, st: Sched, i: nat, second: bool, w: nat)
    requires Dispatchable(st) && w < i < |Dispatched(p, st)|
    requires var moved := Dispatched(p, st); var r := Src(st.insts[moved[i]], second);
      && r != -1 && st.insts[moved[w]].dst == r
      && forall w' :: w < w' < i ==> st.insts[moved[w']].dst != r
    ensures var moved := Dispatched(p, st); var x, x' := st.insts[moved[i]], Dispatch(p, st).1.insts[moved[i]];
      && Src(x', second) == st.insts[moved[w]].seqNum
      && SrcReady(x', second) == SrcReady(x, second)
  {
    DispatchMoved(p, st, i);
    MovedFromEarlier(st.cycle, st.insts, RegsOf(st), Dispatched(p, st), i, second, w);
  }

  /**
   * An operand no earlier moved entry writes is renamed against the
   * register file as dispatch found it: none stays none; a ready register
   * keeps its number and the operand becomes ready; otherwise the operand
   * takes the map table's tag.
   */
  lemma DispatchRenamesFromFile(p: Params, st: Sched, i: nat, second: bool)
    requires Dispatchable(st) && i < |Dispatched(p, st)|
    requires var moved := Dispatched(p, st); var r := Src(st.insts[moved[i]], second);
      r == -1 || forall w :: 0 <= w < i ==> st.insts[moved[w]].dst != r
    ensures var moved := Dispatched(p, st); var x, x' := st.insts[moved[i]], Dispatch(p, st).1.insts[moved[i]];
      var r := Src(x, second);
      && (r == -1 ==> Src(x', second) == -1 && SrcReady(x', second) == SrcReady(x, second))
      && (r != -1 && st.ready[r] ==> Src(x', second) == r && SrcReady(x', second))
      && (r != -1 && !st.ready[r] ==> Src(x', second) == st.mapTable[r] && SrcReady(x', second) == SrcReady(x, second))
  {
    DispatchMoved(p, st, i);
    MovedFromFile(st.cycle, st.insts, RegsOf(st), Dispatched(p, st), i, second);
  }

  // ---------------------------------------------------------------------
  // dispatch keeps the invariant
  // ---------------------------------------------------------------------

  /** How dispatch changes the lists: the moved entries leave the dispatch list and go on top of the issue list. */
  ghost predicate ListsDispatched(st: Sched, dl: Q.Fifo<nat>, issue: Q.Fifo<nat>, moved: seq<nat>) {
    && (forall k :: k in moved ==> k in st.dispatchList.cells)
    && dl.Valid() && Q.Distinct(dl.cells)
    && (forall k :: k in dl.cells <==> k in st.dispatchList.cells && k !in moved)
    && issue.Valid() && issue.cells == Q.Reverse(moved) + st.issueList.cells
    && Q.Distinct(Q.Reverse(moved)) && (forall k :: k in Q.Reverse(moved) <==> k in moved)
  }

  /**
   * How dispatch changes the records: the moved ones enter IS; others on
   * the dispatch list enter ID unless they are there already; the rest
   * stay as they were.
   */
  ghost predicate RecordsDispatched(st: Sched, insts: map<nat, Inst>, moved: seq<nat>) {
    && (forall k :: k in insts <==> k in st.insts)
    && (forall k :: k in st.insts && k in moved ==>
          && insts[k].stage == IS && insts[k].seqNum == st.insts[k].seqNum
          && insts[k].kind == st.insts[k].kind && insts[k].dst == st.insts[k].dst)
    && (forall k :: k in st.insts && k !in moved ==>
          insts[k] == if k in st.dispatchList.cells && st.insts[k].stage != ID then ToID(st.insts[k], st.cycle) else st.insts[k])
  }

  lemma DispatchMovesLists(p: Params, st: Sched)
    requires Dispatchable(st)
    ensures ListsDispatched(st, Dispatch(p, st).1.dispatchList, Dispatch(p, st).1.issueList, Dispatched(p, st))
  {
    var moved := Dispatched(p, st);
    assert Q.Distinct(Q.Reverse(moved)) && (forall k :: k in Q.Reverse(moved) <==> k in moved) by {
      Q.ReverseDistinct(moved);
      Members(Q.Reverse(moved), moved);
    }
    assert Q.Distinct(Dispatch(p, st).1.dispatchList.cells)
      && (forall j :: j in Dispatch(p, st).1.dispatchList.cells <==> j in st.dispatchList.cells && j !in moved)
      && Dispatch(p, st).1.issueList.cells == Q.Reverse(moved) + st.issueList.cells by {
      DispatchLists(p, st);
    }
  }

  lemma DispatchMovesRecords(p: Params, st: Sched)
    requires Dispatchable(st)
    ensures RecordsDispatched(st, Dispatch(p, st).1.insts, Dispatched(p, st))
  {
    var moved, insts' := Dispatched(p, st), Dispatch(p, st).1.insts;
    forall k | k in st.insts && k in moved
      ensures && insts'[k].stage == IS && insts'[k].seqNum == st.insts[k].seqNum
              && insts'[k].kind == st.insts[k].kind && insts'[k].dst == st.insts[k].dst
    {
      var i :| 0 <= i < |moved| && moved[i] == k;
      DispatchMoved(p, st, i);
    }
    forall k | k in st.insts && k !in moved
      ensures insts'[k] == if k in st.dispatchList.cells && st.insts[k].stage != ID then ToID(st.insts[k], st.cycle) else st.insts[k]
    {
      DispatchKept(p, st, k);
    }
  }

  /**
   * The invariant after moving entries from the dispatch list to IS and
   * onto the issue list, promoting the rest of the dispatch list to ID,
   * whatever the register file becomes.
   */
  lemma DispatchInvFrom(st: Sched, st': Sched, moved: seq<nat>)
    requires Inv(st)
    requires st' == st.(insts := st'.insts, dispatchList := st'.dispatchList, issueList := st'.issueList,
                        ready := st'.ready, mapTable := st'.mapTable)
    requires |st'.ready| == NumRegs && |st'.mapTable| == NumRegs
    requires ListsDispatched(st, st'.dispatchList, st'.issueList, moved) && RecordsDispatched(st, st'.insts, moved)
    ensures Inv(st')
  {
    RecordsOk(st, st', moved);
    DispatchListHolds(st, st', moved);
    IssueListHolds(st, st', moved);
    ExecuteListHolds(st, st', moved);
  }

  /** The records dispatch leaves are well formed: renaming happens only on the way to IS. */
  lemma RecordsOk(st: Sched, st': Sched, moved: seq<nat>)
    requires forall k :: k in st.insts ==> k < st.seqNum && InstOk(k, st.insts[k])
    requires Holds(st, st.dispatchList, IF, ID)
    requires st'.seqNum == st.seqNum && st'.cycle == st.cycle && RecordsDispatched(st, st'.insts, moved)
    ensures forall k :: k in st'.insts ==> k < st'.seqNum && InstOk(k, st'.insts[k])
  {
    forall k | k in st'.insts ensures k < st'.seqNum && InstOk(k, st'.insts[k]) {
      var x := st.insts[k];
      assert InstOk(k, x);
      if k in moved {
        assert st'.insts[k].stage == IS;
      } else if k in st.dispatchList.cells && x.stage != ID {
        var y := ToID(x, st.cycle);
        assert st'.insts[k] == y;
        assert y.src1 == x.src1 && y.src2 == x.src2 && y.src1Ready == x.src1Ready && y.src2Ready == x.src2Ready;
      } else {
        assert st'.insts[k] == x;
      }
    }
  }

  /** After dispatch the dispatch list holds the entries that did not move, in IF or ID. */
  lemma DispatchListHolds(st: Sched, st': Sched, moved: seq<nat>)
    requires Holds(st, st.dispatchList, IF, ID) && st'.rob == st.rob && st'.cycle == st.cycle
    requires ListsDispatched(st, st'.dispatchList, st'.issueList, moved) && RecordsDispatched(st, st'.insts, moved)
    ensures Holds(st', st'.dispatchList, IF, ID)
  {
  }

  /** After dispatch the issue list holds the moved entries, in IS, and those it held. */
  lemma IssueListHolds(st: Sched, st': Sched, moved: seq<nat>)
    requires Holds(st, st.dispatchList, IF, ID) && Holds(st, st.issueList, IS, IS) && st'.rob == st.rob
    requires ListsDispatched(st, st'.dispatchList, st'.issueList, moved) && RecordsDispatched(st, st'.insts, moved)
    ensures Holds(st', st'.issueList, IS, IS)
  {
    forall k | k in moved ensures k !in st.issueList.cells {
      assert k in st.dispatchList.cells;
    }
    forall k | k in st.issueList.cells ensures k !in st.dispatchList.cells && k !in moved {
    }
    AppendDistinct(Q.Reverse(moved), st.issueList.cells);
  }

  /** Dispatch does not touch the execute list or its records. */
  lemma ExecuteListHolds(st: Sched, st': Sched, moved: seq<nat>)
    requires Holds(st, st.dispatchList, IF, ID) && Holds(st, st.executeList, EX, EX)
    requires st'.rob == st.rob && st'.executeList == st.executeList
    requires ListsDispatched(st, st'.dispatchList, st'.issueList, moved) && RecordsDispatched(st, st'.insts, moved)
    ensures Holds(st', st'.executeList, EX, EX)
  {
    forall k | k in st.executeList.cells ensures k !in st.dispatchList.cells && k !in moved {
    }
  }

  /** dispatch keeps the invariant. */
  lemma DispatchKeepsInv(p: Params, st: Sched)
    requires Inv(st)
    ensures Dispatchable(st)
    ensures Inv(Dispatch(p, st).1)
  {
    InvDispatchable(st);
    DispatchMovesLists(p, st);
    DispatchMovesRecords(p, st);
    DispatchInvFrom(st, Dispatch(p, st).1, Dispatched(p, st));
  }
}
