/**
 * The dynamic scheduler of ds.c: an out-of-order pipeline of the stages
 * fetch (IF), dispatch (ID), issue (IS), execute (EX) and write-back (WB),
 * with a fake reorder buffer that retires in program order, register
 * renaming through a ready bit and a map table per architectural
 * register, and two caches that give loads their latency.
 *
 * Instruction records live in an arena keyed by their sequence number;
 * the lists of the C code (fake ROB, dispatch, issue and execute lists)
 * hold these numbers where the C code holds pointers. One call of
 * dsProcess is one step function from state to state.
 */
module Scheduler {
  import opened Wrappers
  import opened Bits
  import opened Address
  import opened Replacement
  import E = CacheEngine
  import CacheSetup
  import AccessFacts
  import Q = Container

  /** Architectural registers: ready and mapTable have this many entries. */
  const NumRegs: nat := 128

  /** A register operand: -1 means none. */
  predicate RegOk(r: int) {
    -1 <= r < NumRegs as int
  }

  /** PROC_PIPE_STAGE_*. */
  datatype Stage = IF | ID | IS | EX | WB

  /**
   * dsInstInfoT: the operation type (0, 1 or 2, where 2 reaches memory),
   * the registers (src1 and src2 hold a sequence number once renamed), the
   * original sources, the memory address, the execute latency, the operand
   * ready flags, the current stage and the start cycle and duration of
   * every stage.
   */
  datatype Inst = Inst(
    seqNum: nat,
    kind: int,
    dst: int,
    src1: int,
    src2: int,
    origSrc1: int,
    origSrc2: int,
    mem: Word,
    latency: int,
    src1Ready: bool,
    src2Ready: bool,
    stage: Stage,
    ifStart: int, ifDuration: int,
    idStart: int, idDuration: int,
    isStart: int, isDuration: int,
    exStart: int, exDuration: int,
    wbStart: int, wbDuration: int)

  /** One line of the trace: pc, operation type, dst, src1, src2, memory address. */
  datatype TraceEntry = TraceEntry(pc: Word, op: int, dst: int, src1: int, src2: int, mem: Word)

  /** The bounds doTrace asserts on every line it reads (the program aborts otherwise). */
  predicate EntryOk(e: TraceEntry) {
    0 <= e.op <= 2 && RegOk(e.dst) && RegOk(e.src1) && RegOk(e.src2)
  }

  /**
   * The scheduler's parameters: the scheduling-queue size s, the width n,
   * the execute latencies PIPE_EX_LATENCY_* (whose values are not part of
   * this model) and the order in which fifoForeach walks a list.
   */
  datatype Params = Params(
    s: int,
    n: int,
    latType0: int,
    latType1: int,
    latType2: int,
    latL1Hit: int,
    latL1Miss: int,
    latL2Miss: int,
    order: Q.Order)

  /**
   * dsT: the cycle counter, the next sequence number, the unread rest of the
   * trace, the four lists, the instruction records, the register file
   * (ready bits and map table) and the two caches, each a hierarchy of at
   * most one level (NULL is the empty hierarchy). The caches are not
   * connected: an L1 miss is sent to L2 by the scheduler itself.
   */
  datatype Sched = Sched(
    cycle: nat,
    seqNum: nat,
    trace: seq<TraceEntry>,
    rob: Q.Fifo<nat>,
    dispatchList: Q.Fifo<nat>,
    issueList: Q.Fifo<nat>,
    executeList: Q.Fifo<nat>,
    insts: map<nat, Inst>,
    ready: seq<bool>,
    mapTable: seq<int>,
    l1: E.Hierarchy,
    l2: E.Hierarchy)

  // ---------------------------------------------------------------------
  // Invariant
  // ---------------------------------------------------------------------

  /**
   * A record as the pipeline keeps it: its key is its sequence number, the
   * type and destination are in range, and before dispatch renames it the
   * sources are register numbers with clear ready flags.
   */
  predicate InstOk(k: nat, i: Inst) {
    && i.seqNum == k
    && 0 <= i.kind <= 2
    && RegOk(i.dst)
    && (i.stage == IF || i.stage == ID ==> RegOk(i.src1) && RegOk(i.src2) && !i.src1Ready && !i.src2Ready)
  }

  /** Strictly decreasing from the head: the head is the newest. */
  predicate NewestFirst(s: seq<nat>) {
    forall i, j :: 0 <= i < j < |s| ==> s[i] > s[j]
  }

  /** Caches without victim caches, as dynamicSchedulerInit builds them. */
  predicate Plain(h: E.Hierarchy) {
    forall i :: 0 <= i < |h| ==> h[i].victim.None? && !h[i].main.cfg.isVictim
  }

  /** Each handle in the list names a record in one of the given stages that is still in the ROB. */
  predicate Holds(st: Sched, q: Q.Fifo<nat>, s1: Stage, s2: Stage) {
    && q.Valid()
    && Q.Distinct(q.cells)
    && forall k :: k in q.cells ==> k in st.insts && (st.insts[k].stage == s1 || st.insts[k].stage == s2) && k in st.rob.cells
  }

  /**
   * What the stages need to be defined: a full register file, records with
   * in-range destinations, and list entries that name records.
   */
  predicate Known(st: Sched) {
    && |st.ready| == NumRegs && |st.mapTable| == NumRegs
    && (forall k :: k in st.insts ==> RegOk(st.insts[k].dst))
    && (forall k :: k in st.dispatchList.cells ==> k in st.insts)
    && (forall k :: k in st.issueList.cells ==> k in st.insts)
    && (forall k :: k in st.executeList.cells ==> k in st.insts)
  }

  /**
   * What every cycle keeps: the register file has 128 entries; the ROB
   * holds known records, newest first; a record is in the dispatch list
   * only in IF or ID, in the issue list only in IS, in the execute list
   * only in EX; the caches are well formed; the rest of the trace is in
   * range.
   */
  predicate Inv(st: Sched) {
    && |st.ready| == NumRegs && |st.mapTable| == NumRegs
    && (forall k :: k in st.insts ==> k < st.seqNum && InstOk(k, st.insts[k]))
    && st.rob.Valid()
    && NewestFirst(st.rob.cells)
    && (forall k :: k in st.rob.cells ==> k in st.insts)
    && Holds(st, st.dispatchList, IF, ID)
    && Holds(st, st.issueList, IS, IS)
    && Holds(st, st.executeList, EX, EX)
    && E.HierWF(st.l1) && E.HierWF(st.l2) && Plain(st.l1) && Plain(st.l2)
    && (forall i :: 0 <= i < |st.trace| ==> EntryOk(st.trace[i]))
  }

  // ---------------------------------------------------------------------
  // Initialisation
  // ---------------------------------------------------------------------

  /**
   * Cache parameters the cache model accepts: a positive size needs a
   * power-of-two block size and set count whose widths fit the address.
   */
  predicate Usable(size: int, assoc: nat, blockSize: nat) {
    size > 0 ==>
      && assoc >= 1 && blockSize >= 1
      && IsPow2(blockSize)
      && IsPow2(CeilDiv(size, assoc * blockSize))
      && CeilLog2(blockSize) + CeilLog2(CeilDiv(size, assoc * blockSize)) <= AddressSize
  }

  /** cacheInit with LRU and write-back/write-allocate, as a hierarchy of its own: empty for a NULL cache. */
  function OwnCache(size: int, assoc: nat, blockSize: nat): (h: E.Hierarchy)
    requires Usable(size, assoc, blockSize)
    ensures E.HierWF(h) && Plain(h)
    ensures |h| == 0 <==> size <= 0
    ensures size > 0 ==>
      |h| == 1 && h[0].main == CacheSetup.Init(size, assoc, blockSize, LRU, E.WriteBackWriteAllocate).value
  {
    if size <= 0 then []
    else
      CacheSetup.InitWF(size, assoc, blockSize, LRU, E.WriteBackWriteAllocate);
      var c := CacheSetup.Init(size, assoc, blockSize, LRU, E.WriteBackWriteAllocate).value;
      [E.Level(c, None)]
  }

  /**
   * dynamicSchedulerInit: cycle and sequence number 0, empty lists, every
   * register ready, the map table zeroed (calloc), and the two caches.
   * The trace is the input doTrace reads, already within its bounds.
   */
  function Init(p: Params, trace: seq<TraceEntry>, blockSize: nat, l1Size: int, l1Assoc: nat, l2Size: int, l2Assoc: nat): (st: Sched)
    requires Usable(l1Size, l1Assoc, blockSize) && Usable(l2Size, l2Assoc, blockSize)
    requires forall i :: 0 <= i < |trace| ==> EntryOk(trace[i])
    ensures Inv(st)
    ensures st.cycle == 0 && st.seqNum == 0 && st.trace == trace && |st.insts| == 0
    ensures st.rob.cells == [] && st.dispatchList.cells == [] && st.issueList.cells == [] && st.executeList.cells == []
    ensures forall r :: 0 <= r < NumRegs ==> st.ready[r] && st.mapTable[r] == 0
    ensures (|st.l1| == 0 <==> l1Size <= 0) && (|st.l2| == 0 <==> l2Size <= 0)
  {
    var l1, l2 := OwnCache(l1Size, l1Assoc, blockSize), OwnCache(l2Size, l2Assoc, blockSize);
    var st := Sched(0, 0, trace, Q.Init(), Q.Init(), Q.Init(), Q.Init(), map[], AllReady(), Zeroes(), l1, l2);
    EmptyInv(st);
    st
  }

  /** Every register ready. */
  function AllReady(): (r: seq<bool>)
    ensures |r| == NumRegs && forall i :: 0 <= i < NumRegs ==> r[i]
  {
    seq(NumRegs, _ => true)
  }

  /** The zeroed map table. */
  function Zeroes(): (r: seq<int>)
    ensures |r| == NumRegs && forall i :: 0 <= i < NumRegs ==> r[i] == 0
  {
    seq(NumRegs, _ => 0)
  }

  /** A state with no records and empty lists satisfies the invariant once its register file and caches are in shape. */
  lemma EmptyInv(st: Sched)
    requires |st.ready| == NumRegs && |st.mapTable| == NumRegs && |st.insts| == 0
    requires st.rob == Q.Init() && st.dispatchList == Q.Init() && st.issueList == Q.Init() && st.executeList == Q.Init()
    requires E.HierWF(st.l1) && E.HierWF(st.l2) && Plain(st.l1) && Plain(st.l2)
    requires forall i :: 0 <= i < |st.trace| ==> EntryOk(st.trace[i])
    ensures Inv(st)
  {
  }

  // ---------------------------------------------------------------------
  // Retire (fakeRetire)
  // ---------------------------------------------------------------------

  predicate IsWB(insts: map<nat, Inst>, k: nat) {
    k in insts && insts[k].stage == WB
  }

  /**
   * The loop of fakeRetire: pop the oldest ROB entry while it is in WB.
   * Returns the popped handles, oldest first, and the remaining ROB.
   */
  function RetireLoop(rob: Q.Fifo<nat>, insts: map<nat, Inst>): (r: (seq<nat>, Q.Fifo<nat>))
    requires rob.Valid()
    decreases |rob.cells|
    ensures r.1.Valid() && |r.0| <= |rob.cells|
    ensures r.1.cells == rob.cells[..|rob.cells| - |r.0|]
    ensures forall i :: 0 <= i < |r.0| ==> r.0[i] == rob.cells[|rob.cells| - 1 - i] && IsWB(insts, r.0[i])
    ensures |r.1.cells| > 0 ==> !IsWB(insts, r.1.cells[|r.1.cells| - 1])
  {
    var t := Q.PopTailConditional(rob, k => IsWB(insts, k));
    if t.0 then
      var rest := RetireLoop(t.2, insts);
      ([t.1.value] + rest.0, rest.1)
    else ([], rob)
  }

  /**
   * fakeRetire: the longest run of WB instructions at the old end of the
   * ROB leaves it, oldest first, and their records are the output (printed
   * by the C code). Retirement is in program order: the sequence numbers
   * rise and stay below every instruction left in the ROB. The result is
   * TRUE exactly when the ROB is then empty.
   */
  function FakeRetire(st: Sched): (r: (bool, seq<Inst>, Sched))
    requires st.rob.Valid() && forall k :: k in st.rob.cells ==> k in st.insts
    ensures r.2 == st.(rob := r.2.rob) && r.2.rob.Valid()
    ensures var n, m := |st.rob.cells|, |r.1|;
      && m <= n && r.2.rob.cells == st.rob.cells[..n - m]
      && forall i :: 0 <= i < m ==> r.1[i] == st.insts[st.rob.cells[n - 1 - i]] && r.1[i].stage == WB
    ensures |r.2.rob.cells| > 0 ==> st.insts[r.2.rob.cells[|r.2.rob.cells| - 1]].stage != WB
    ensures r.0 <==> |r.2.rob.cells| == 0
  {
    var (out, rob') := RetireLoop(st.rob, st.insts);
    (|rob'.cells| == 0, Records(st.insts, out), st.(rob := rob'))
  }

  /** The records of the given handles, in the same order. */
  function Records(insts: map<nat, Inst>, ks: seq<nat>): (r: seq<Inst>)
    requires forall i :: 0 <= i < |ks| ==> ks[i] in insts
    ensures |r| == |ks| && forall i :: 0 <= i < |ks| ==> r[i] == insts[ks[i]]
  {
    seq(|ks|, i requires 0 <= i < |ks| => insts[ks[i]])
  }

  /** Within a cycle, instructions retire in rising sequence-number order. */
  lemma RetireInOrder(st: Sched)
    requires st.rob.Valid() && NewestFirst(st.rob.cells)
    requires forall k :: k in st.rob.cells ==> k in st.insts && st.insts[k].seqNum == k
    ensures var r := FakeRetire(st);
      forall i, j :: 0 <= i < j < |r.1| ==> r.1[i].seqNum < r.1[j].seqNum
  {
    var r := FakeRetire(st);
    PoppedInOrder(st.rob.cells, st.insts, r.1);
  }

  /** Records popped off the old end of a newest-first ROB come out in rising sequence-number order. */
  lemma PoppedInOrder(cells: seq<nat>, insts: map<nat, Inst>, out: seq<Inst>)
    requires NewestFirst(cells) && forall k :: k in cells ==> k in insts && insts[k].seqNum == k
    requires |out| <= |cells| && forall i :: 0 <= i < |out| ==> out[i] == insts[cells[|cells| - 1 - i]]
    ensures forall i, j :: 0 <= i < j < |out| ==> out[i].seqNum < out[j].seqNum
  {
    var n := |cells|;
    forall i, j | 0 <= i < j < |out| ensures out[i].seqNum < out[j].seqNum {
      assert out[i].seqNum == cells[n - 1 - i];
      assert out[j].seqNum == cells[n - 1 - j];
    }
  }

  /** Every retired instruction is older than each one left in the ROB. */
  lemma RetireOldestFirst(st: Sched)
    requires st.rob.Valid() && NewestFirst(st.rob.cells)
    requires forall k :: k in st.rob.cells ==> k in st.insts && st.insts[k].seqNum == k
    ensures var r := FakeRetire(st);
      forall i, k :: 0 <= i < |r.1| && k in r.2.rob.cells ==> r.1[i].seqNum < k
  {
    var r := FakeRetire(st);
    PoppedOlder(st.rob.cells, st.insts, r.1, r.2.rob.cells);
  }

  /** Records popped off the old end of a newest-first ROB are older than every entry left. */
  lemma PoppedOlder(cells: seq<nat>, insts: map<nat, Inst>, out: seq<Inst>, rest: seq<nat>)
    requires NewestFirst(cells) && forall k :: k in cells ==> k in insts && insts[k].seqNum == k
    requires |out| <= |cells| && forall i :: 0 <= i < |out| ==> out[i] == insts[cells[|cells| - 1 - i]]
    requires rest == cells[..|cells| - |out|]
    ensures forall i, k :: 0 <= i < |out| && k in rest ==> out[i].seqNum < k
  {
    var n, m := |cells|, |out|;
    OlderEnd(cells, m, rest);
    forall i, k | 0 <= i < m && k in rest ensures out[i].seqNum < k {
      assert out[i].seqNum == cells[n - 1 - i];
    }
  }

  /** In a newest-first sequence, each of the last m elements is below each of the others. */
  lemma OlderEnd(s: seq<nat>, m: nat, rest: seq<nat>)
    requires NewestFirst(s) && m <= |s| && rest == s[..|s| - m]
    ensures forall j, k :: |s| - m <= j < |s| && k in rest ==> s[j] < k
  {
    forall j, k | |s| - m <= j < |s| && k in rest ensures s[j] < k {
      var q :| 0 <= q < |s| - m && s[q] == k;
    }
  }

  /** Retiring keeps the invariant. */
  lemma FakeRetireKeepsInv(st: Sched)
    requires Inv(st)
    ensures Inv(FakeRetire(st).2)
  {
    var r := FakeRetire(st);
    var n, m := |st.rob.cells|, |r.1|;
    forall q | n - m <= q < n ensures st.insts[st.rob.cells[q]].stage == WB {
      assert r.1[n - 1 - q] == st.insts[st.rob.cells[q]];
    }
    RetireKeepsPending(st, m, r.2.rob);
  }

  /**
   * Popping WB entries off the old end keeps every instruction that is
   * still in a list, and keeps the ROB newest first.
   */
  lemma RetireKeepsPending(st: Sched, m: nat, rob': Q.Fifo<nat>)
    requires Inv(st) && rob'.Valid()
    requires m <= |st.rob.cells| && rob'.cells == st.rob.cells[..|st.rob.cells| - m]
    requires forall q :: |st.rob.cells| - m <= q < |st.rob.cells| ==> st.insts[st.rob.cells[q]].stage == WB
    ensures Inv(st.(rob := rob'))
  {
    var n := |st.rob.cells|;
    forall k | k in st.rob.cells && st.insts[k].stage != WB ensures k in rob'.cells {
      var p :| 0 <= p < n && st.rob.cells[p] == k;
      assert rob'.cells[p] == k;
    }
  }

  // ---------------------------------------------------------------------
  // Fetch
  // ---------------------------------------------------------------------

  /** The execute latency fetch assigns by operation type. */
  function TypeLatency(p: Params, op: int): int {
    if op == 0 then p.latType0 else if op == 1 then p.latType1 else p.latType2
  }

  /** The record fetch creates for a trace line: IF from this cycle, operands as read, flags clear. */
  function NewInst(p: Params, seqNum: nat, cycle: int, e: TraceEntry): (i: Inst)
    ensures i.stage == IF && i.ifStart == cycle && i.seqNum == seqNum
    ensures i.kind == e.op && i.dst == e.dst && i.mem == e.mem
    ensures i.src1 == i.origSrc1 == e.src1 && i.src2 == i.origSrc2 == e.src2
    ensures !i.src1Ready && !i.src2Ready && i.latency == TypeLatency(p, e.op)
  {
    Inst(seqNum, e.op, e.dst, e.src1, e.src2, e.src1, e.src2, e.mem, TypeLatency(p, e.op),
         false, false, IF, cycle, 0, 0, 0, 0, 0, 0, 0, 0, 0)
  }

  /** One fetched line: a new record on the ROB and on the dispatch list; the trace advances. */
  function FetchOne(p: Params, st: Sched): (st': Sched)
    requires |st.trace| > 0
    ensures st'.seqNum == st.seqNum + 1 && st'.trace == st.trace[1..]
    ensures st'.insts == st.insts[st.seqNum := NewInst(p, st.seqNum, st.cycle, st.trace[0])]
    ensures st'.rob == Q.Push(st.rob, st.seqNum)
    ensures st'.dispatchList == Q.Push(st.dispatchList, st.seqNum)
    ensures st' == st.(seqNum := st'.seqNum, trace := st'.trace, insts := st'.insts, rob := st'.rob, dispatchList := st'.dispatchList)
  {
    var k := st.seqNum;
    st.(seqNum := k + 1, trace := st.trace[1..], insts := st.insts[k := NewInst(p, k, st.cycle, st.trace[0])],
        rob := Q.Push(st.rob, k), dispatchList := Q.Push(st.dispatchList, k))
  }

  /** A fetched line keeps the invariant: the new number is above every record, so the ROB stays newest first. */
  lemma FetchOneKeepsInv(p: Params, st: Sched)
    requires Inv(st) && |st.trace| > 0
    ensures Inv(FetchOne(p, st))
  {
    var st' := FetchOne(p, st);
    var k := st.seqNum;
    assert k !in st.insts;
    assert k !in st.rob.cells && k !in st.dispatchList.cells;
    assert EntryOk(st.trace[0]);
    var r := st'.rob.cells;
    forall i, j | 0 <= i < j < |r| ensures r[i] > r[j] {
      assert r[j] == st.rob.cells[j - 1];
      assert r[j] in st.insts;
      if i > 0 {
        assert r[i] == st.rob.cells[i - 1];
      }
    }
    var d := st'.dispatchList.cells;
    forall i, j | 0 <= i < j < |d| ensures d[i] != d[j] {
      assert d[j] == st.dispatchList.cells[j - 1];
      if i > 0 {
        assert d[i] == st.dispatchList.cells[i - 1];
      }
    }
    forall i | 0 <= i < |st'.trace| ensures EntryOk(st'.trace[i]) {
      assert st'.trace[i] == st.trace[i + 1];
    }
  }

  /** The fetch loop's condition: room in the dispatch list and fetch bandwidth left. */
  predicate FetchLoopWants(p: Params, st: Sched, numFetch: int) {
    st.dispatchList.numElems < 2 * p.n && numFetch < p.n
  }

  /** after is before with f new handles on top: first + f - 1 at the head, down to first. */
  predicate NewOnTop(before: seq<nat>, after: seq<nat>, first: nat, f: nat) {
    && |after| == |before| + f
    && after[f..] == before
    && forall i :: 0 <= i < f ==> after[i] == first + f - 1 - i
  }

  /**
   * Reading f lines in a row: the trace advances by f, the f new sequence
   * numbers go on top of the ROB and of the dispatch list, newest first,
   * and nothing else in the state changes apart from the records.
   */
  function FetchN(p: Params, st: Sched, f: nat): (st': Sched)
    requires f <= |st.trace|
    decreases f
    ensures st'.trace == st.trace[f..] && st'.seqNum == st.seqNum + f
    ensures NewOnTop(st.rob.cells, st'.rob.cells, st.seqNum, f)
    ensures NewOnTop(st.dispatchList.cells, st'.dispatchList.cells, st.seqNum, f)
    ensures st'.rob.numElems == st.rob.numElems + f && st'.dispatchList.numElems == st.dispatchList.numElems + f
    ensures st' == st.(seqNum := st'.seqNum, trace := st'.trace, insts := st'.insts, rob := st'.rob, dispatchList := st'.dispatchList)
  {
    if f == 0 then st
    else
      var st1 := FetchOne(p, st);
      var r := FetchN(p, st1, f - 1);
      assert st1.trace[f - 1..] == st.trace[f..];
      assert r.rob.cells[f..] == st.rob.cells by {
        assert r.rob.cells[f - 1..] == st1.rob.cells;
      }
      assert r.dispatchList.cells[f..] == st.dispatchList.cells by {
        assert r.dispatchList.cells[f - 1..] == st1.dispatchList.cells;
      }
      r
  }

  /** Reading f > 0 lines is reading one and then f - 1. */
  lemma FetchNStep(p: Params, st: Sched, f: nat)
    requires 0 < f <= |st.trace|
    ensures FetchN(p, st, f) == FetchN(p, FetchOne(p, st), f - 1)
  {
  }

  /** Reading f lines adds exactly the f new sequence numbers to the records. */
  lemma {:induction false} FetchNKeys(p: Params, st: Sched, f: nat)
    requires f <= |st.trace|
    decreases f
    ensures forall j :: j in FetchN(p, st, f).insts <==> j in st.insts || st.seqNum <= j < st.seqNum + f
  {
    if f > 0 {
      assert FetchN(p, st, f) == FetchN(p, FetchOne(p, st), f - 1);
      FetchNKeys(p, FetchOne(p, st), f - 1);
    }
  }

  /** Reading lines leaves every older record untouched. */
  lemma {:induction false} FetchNKeepsOld(p: Params, st: Sched, f: nat)
    requires f <= |st.trace|
    decreases f
    ensures forall j :: j in st.insts && j < st.seqNum ==> j in FetchN(p, st, f).insts && FetchN(p, st, f).insts[j] == st.insts[j]
  {
    if f > 0 {
      assert FetchN(p, st, f) == FetchN(p, FetchOne(p, st), f - 1);
      FetchNKeepsOld(p, FetchOne(p, st), f - 1);
    }
  }

  /** Reading f lines creates one fresh IF record per line, numbered in trace order. */
  lemma {:induction false} FetchNRecords(p: Params, st: Sched, f: nat)
    requires f <= |st.trace|
    decreases f
    ensures forall k :: k in FetchN(p, st, f).insts && st.seqNum <= k < st.seqNum + f ==>
      FetchN(p, st, f).insts[k] == NewInst(p, k, st.cycle, st.trace[k - st.seqNum])
  {
    if f > 0 {
      var st1 := FetchOne(p, st);
      var r := FetchN(p, st1, f - 1);
      assert r == FetchN(p, st, f);
      FetchNRecords(p, st1, f - 1);
      FetchNKeepsOld(p, st1, f - 1);
      assert st1.seqNum == st.seqNum + 1 && st1.cycle == st.cycle;
      forall k | k in r.insts && st.seqNum <= k < st.seqNum + f
        ensures r.insts[k] == NewInst(p, k, st.cycle, st.trace[k - st.seqNum])
      {
        if k == st.seqNum {
          assert st.seqNum in st1.insts && st.seqNum < st1.seqNum;
        } else {
          assert st.trace[k - st.seqNum] == st1.trace[k - st1.seqNum];
        }
      }
    }
  }


  /** Reading lines keeps the invariant. */
  lemma {:induction false} FetchNKeepsInv(p: Params, st: Sched, f: nat)
    requires Inv(st) && f <= |st.trace|
    decreases f
    ensures Inv(FetchN(p, st, f))
  {
    if f > 0 {
      FetchOneKeepsInv(p, st);
      FetchNKeepsInv(p, FetchOne(p, st), f - 1);
    }
  }

  function Min(a: int, b: int): int {
    if a < b then a else b
  }

  /**
   * How many lines the fetch loop reads: as many as the rest of the trace,
   * the bandwidth left (n less the lines already read) and the room below
   * 2n in the dispatch list all allow.
   */
  function FetchBudget(p: Params, st: Sched, numFetch: nat): (f: nat)
    ensures f <= |st.trace|
    ensures f == |st.trace| || f == FetchRoom(p, st, numFetch) || (f == 0 && FetchRoom(p, st, numFetch) < 0)
    ensures f <= FetchRoom(p, st, numFetch) || f == 0
  {
    var room := FetchRoom(p, st, numFetch);
    if room <= 0 then 0 else Min(room, |st.trace|)
  }

  /** Reading one line while the loop condition holds uses up one line of the budget. */
  lemma FetchBudgetStep(p: Params, st: Sched, numFetch: nat)
    requires FetchLoopWants(p, st, numFetch) && |st.trace| > 0
    ensures FetchBudget(p, st, numFetch) == FetchBudget(p, FetchOne(p, st), numFetch + 1) + 1
  {
    assert FetchRoom(p, FetchOne(p, st), numFetch + 1) == FetchRoom(p, st, numFetch) - 1;
  }

  /** The lines the loop condition allows: the smaller of the bandwidth left and the room below 2n. */
  function FetchRoom(p: Params, st: Sched, numFetch: nat): int {
    Min(p.n - numFetch, 2 * p.n - st.dispatchList.numElems)
  }

  /**
   * The fetch loop, with the end-of-trace result as evidently intended:
   * TRUE only when the trace is exhausted and nothing was read this cycle.
   * It reads exactly the lines the budget allows.
   */
  function FetchLoop(p: Params, st: Sched, numFetch: nat): (r: (bool, Sched))
    decreases |st.trace|
    ensures r.1 == FetchN(p, st, FetchBudget(p, st, numFetch))
    ensures r.0 <==> numFetch == 0 && st.trace == [] && FetchLoopWants(p, st, 0)
  {
    if st.dispatchList.numElems < 2 * p.n && numFetch < p.n then
      if |st.trace| == 0 then (numFetch == 0, st)
      else
        var st1 := FetchOne(p, st);
        var r := FetchLoop(p, st1, numFetch + 1);
        assert r.1 == FetchN(p, st, FetchBudget(p, st, numFetch)) by {
          FetchBudgetStep(p, st, numFetch);
          FetchNStep(p, st, FetchBudget(p, st, numFetch));
        }
        r
    else (false, st)
  }

  /** The fetch loop keeps the invariant. */
  lemma FetchLoopKeepsInv(p: Params, st: Sched, numFetch: nat)
    requires Inv(st)
    ensures Inv(FetchLoop(p, st, numFetch).1)
  {
    FetchNKeepsInv(p, st, FetchBudget(p, st, numFetch));
  }

  /**
   * The fetch loop as written: at the end of the trace it returns TRUE at
   * once, whether or not lines were read before in this call; when the
   * loop condition fails it returns FALSE. It leaves the same state as
   * FetchLoop, and its result is TRUE exactly when the trace ran out with
   * the loop condition still holding.
   */
  function FetchLoopAsWritten(p: Params, st: Sched, numFetch: nat): (r: (bool, Sched))
    decreases |st.trace|
    ensures r.1 == FetchLoop(p, st, numFetch).1
    ensures r.0 <==> |st.trace| < FetchRoom(p, st, numFetch)
  {
    if st.dispatchList.numElems < 2 * p.n && numFetch < p.n then
      if |st.trace| == 0 then (true, st)
      else FetchLoopAsWritten(p, FetchOne(p, st), numFetch + 1)
    else (false, st)
  }

  /** fetch, with the corrected end-of-trace result. */
  function Fetch(p: Params, st: Sched): (r: (bool, Sched))
    ensures r.0 <==> st.trace == [] && 0 < FetchRoom(p, st, 0)
  {
    var r := FetchLoop(p, st, 0);
    WantsRoom(p, st, 0);
    r
  }

  /** The loop condition holds exactly when there is room to read. */
  lemma WantsRoom(p: Params, st: Sched, numFetch: nat)
    ensures FetchLoopWants(p, st, numFetch) <==> 0 < FetchRoom(p, st, numFetch)
  {
  }

  /** fetch as written. */
  function FetchAsWritten(p: Params, st: Sched): (r: (bool, Sched))
    ensures r.1 == Fetch(p, st).1
    ensures r.0 <==> |st.trace| < FetchRoom(p, st, 0)
  {
    FetchLoopAsWritten(p, st, 0)
  }

  // ---------------------------------------------------------------------
  // Execute
  // ---------------------------------------------------------------------

  /** dsInstInEx: in EX for at least its latency. */
  predicate Completes(cycle: int, i: Inst) {
    i.stage == EX && cycle - i.exStart >= i.latency
  }

  /** The record moved to WB this cycle (dsExFinish's first four assignments). */
  function ToWB(i: Inst, cycle: int): (w: Inst)
    ensures w.stage == WB && w.wbStart == cycle && w.wbDuration == 1 && w.exDuration == cycle - i.exStart
    ensures w.dst == i.dst && w.seqNum == i.seqNum && w.src1 == i.src1 && w.src2 == i.src2
  {
    i.(exDuration := cycle - i.exStart, wbStart := cycle, wbDuration := 1, stage := WB)
  }

  /** dsWakeup: an operand waiting on the tag becomes ready; nothing else changes. */
  function Wake(i: Inst, tag: int): (w: Inst)
    ensures w == i.(src1Ready := w.src1Ready, src2Ready := w.src2Ready)
    ensures w.src1Ready <==> i.src1Ready || i.src1 == tag
    ensures w.src2Ready <==> i.src2Ready || i.src2 == tag
  {
    i.(src1Ready := if i.src1 == tag then true else i.src1Ready,
       src2Ready := if i.src2 == tag then true else i.src2Ready)
  }

  /** fifoForeach with dsWakeup over the given handles. */
  function Wakeup(insts: map<nat, Inst>, cells: seq<nat>, tag: int): (r: map<nat, Inst>)
    requires forall k :: k in cells ==> k in insts
    decreases |cells|
    ensures forall j :: j in r <==> j in insts
    ensures forall j :: j in insts ==> r[j] == if j in cells then Wake(insts[j], tag) else insts[j]
  {
    if |cells| == 0 then insts
    else
      var k := cells[0];
      Wakeup(insts[k := Wake(insts[k], tag)], cells[1..], tag)
  }

  /**
   * fifoForeach with dsSearchDst: the largest sequence number among the
   * records with the given destination, starting from acc. It is at least
   * every such number, and it is acc or one of them.
   */
  function NewestWriter(insts: map<nat, Inst>, cells: seq<nat>, dst: int, acc: nat): (m: nat)
    requires forall k :: k in cells ==> k in insts
    decreases |cells|
    ensures acc <= m
    ensures forall k :: k in cells && insts[k].dst == dst ==> insts[k].seqNum <= m
    ensures m == acc || exists k :: k in cells && insts[k].dst == dst && insts[k].seqNum == m
  {
    if |cells| == 0 then acc
    else
      var i := insts[cells[0]];
      NewestWriter(insts, cells[1..], dst, if i.dst == dst && i.seqNum > acc then i.seqNum else acc)
  }

  /** m is the newest sequence number writing register d among the instructions still executing or waiting to issue, or 0 when there is none. */
  ghost predicate NewestPending(st: Sched, d: int, m: nat)
    requires Known(st)
  {
    && (forall j :: (j in st.executeList.cells || j in st.issueList.cells) && st.insts[j].dst == d ==> st.insts[j].seqNum <= m)
    && (m == 0 || exists j :: (j in st.executeList.cells || j in st.issueList.cells) && st.insts[j].dst == d && st.insts[j].seqNum == m)
  }

  /**
   * dsExFinish: the record moves to WB. If it writes a register that is
   * not ready, the map table then names the newest instruction still
   * executing or waiting that writes it, and the register is ready exactly
   * when that is the finishing instruction itself; other registers are
   * untouched. Every waiting instruction with an operand tagged by the
   * finishing one gets that operand marked ready.
   */
  function ExFinish(st: Sched, k: nat): (st': Sched)
    requires Known(st) && k in st.insts
    ensures forall j :: j in st'.insts <==> j in st.insts
    ensures st' == st.(insts := st'.insts, ready := st'.ready, mapTable := st'.mapTable)
    ensures |st'.ready| == NumRegs && |st'.mapTable| == NumRegs
    ensures k !in st.issueList.cells ==> st'.insts[k] == ToWB(st.insts[k], st.cycle)
    ensures forall j :: j in st.insts && j != k ==>
      st'.insts[j] == if j in st.issueList.cells && st.insts[k].dst != -1 then Wake(st.insts[j], st.insts[k].seqNum) else st.insts[j]
    ensures var d := st.insts[k].dst;
      (d == -1 || st.ready[d]) ==> st'.ready == st.ready && st'.mapTable == st.mapTable
    ensures var d := st.insts[k].dst;
      d != -1 && !st.ready[d] ==>
        && st'.ready == st.ready[d := st'.ready[d]]
        && st'.mapTable == st.mapTable[d := st'.mapTable[d]]
        && 0 <= st'.mapTable[d]
        && NewestPending(st, d, st'.mapTable[d])
        && (st'.ready[d] <==> st'.mapTable[d] == st.insts[k].seqNum)
  {
    var i := st.insts[k];
    var insts1 := st.insts[k := ToWB(i, st.cycle)];
    if i.dst == -1 then st.(insts := insts1)
    else
      var m := NewestWriter(st.insts, st.issueList.cells, i.dst, NewestWriter(st.insts, st.executeList.cells, i.dst, 0));
      var ready', mapTable' :=
        if !st.ready[i.dst] then st.ready[i.dst := m == i.seqNum] else st.ready,
        if !st.ready[i.dst] then st.mapTable[i.dst := m] else st.mapTable;
      st.(insts := Wakeup(insts1, st.issueList.cells, i.seqNum), ready := ready', mapTable := mapTable')
  }

  /**
   * fifoSearchOpRemoveInv's step: finish one instruction, then unlink it from
   * the execute list. ExFinish runs first, so the instruction still counts
   * among the pending writers its own register lookup searches.
   */
  function ExecuteOne(st: Sched, k: nat): (st': Sched)
    requires Known(st) && k in st.insts && st.executeList.Valid()
    ensures Known(st') && st'.executeList.Valid()
    ensures forall j :: j in st'.insts <==> j in st.insts
    ensures st' == st.(insts := st'.insts, ready := st'.ready, mapTable := st'.mapTable, executeList := st'.executeList)
    ensures st'.executeList == Q.RemoveItem(st.executeList, k)
    ensures st'.insts == ExFinish(st, k).insts && st'.ready == ExFinish(st, k).ready && st'.mapTable == ExFinish(st, k).mapTable
  {
    var s1 := ExFinish(st, k);
    s1.(executeList := Q.RemoveItem(s1.executeList, k))
  }

  /** Only the operand ready flags differ, and none of them is cleared. */
  predicate OnlyFlags(i: Inst, i': Inst) {
    && i' == i.(src1Ready := i'.src1Ready, src2Ready := i'.src2Ready)
    && (i.src1Ready ==> i'.src1Ready) && (i.src2Ready ==> i'.src2Ready)
  }

  /** One visited entry: finished and unlinked if it completes, left alone otherwise. */
  function ExecuteStep(st: Sched, k: nat): (st': Sched)
    requires Known(st) && k in st.insts && st.executeList.Valid()
    ensures Known(st') && st'.executeList.Valid()
    ensures forall j :: j in st'.insts <==> j in st.insts
    ensures st' == st.(insts := st'.insts, ready := st'.ready, mapTable := st'.mapTable, executeList := st'.executeList)
    ensures !Completes(st.cycle, st.insts[k]) ==> st' == st
    ensures Completes(st.cycle, st.insts[k]) ==> st'.executeList == Q.RemoveItem(st.executeList, k)
    ensures Completes(st.cycle, st.insts[k]) && k !in st.issueList.cells ==> st'.insts[k] == ToWB(st.insts[k], st.cycle)
    ensures forall j :: j in st.insts && j != k && j !in st.issueList.cells ==> st'.insts[j] == st.insts[j]
    ensures forall j :: j in st.issueList.cells && j != k ==> OnlyFlags(st.insts[j], st'.insts[j])
    ensures forall j :: j in st.insts && j != k ==> (Completes(st.cycle, st'.insts[j]) <==> Completes(st.cycle, st.insts[j]))
  {
    if Completes(st.cycle, st.insts[k]) then
      ExecuteOneOthers(st, k);
      ExecuteOne(st, k)
    else st
  }

  /** Finishing k leaves every other record as it was, except the operand flags of the waiting ones, which can only be set. */
  lemma ExecuteOneOthers(st: Sched, k: nat)
    requires Known(st) && k in st.insts && st.executeList.Valid()
    ensures forall j :: j in st.insts && j != k && j !in st.issueList.cells ==> ExecuteOne(st, k).insts[j] == st.insts[j]
    ensures forall j :: j in st.issueList.cells && j != k ==> OnlyFlags(st.insts[j], ExecuteOne(st, k).insts[j])
    ensures forall j :: j in st.insts && j != k ==> (Completes(st.cycle, ExecuteOne(st, k).insts[j]) <==> Completes(st.cycle, st.insts[j]))
  {
    var insts' := ExFinish(st, k).insts;
    forall j | j in st.insts && j != k
      ensures j !in st.issueList.cells ==> insts'[j] == st.insts[j]
      ensures j in st.issueList.cells ==> OnlyFlags(st.insts[j], insts'[j])
      ensures Completes(st.cycle, insts'[j]) <==> Completes(st.cycle, st.insts[j])
    {
    }
  }

  /**
   * The walk of fifoSearchOpRemoveInv over the execute list: each handle,
   * in the given order, whose record completes is finished and unlinked.
   */
  function ExecuteLoop(st: Sched, todo: seq<nat>): (st': Sched)
    requires Known(st) && st.executeList.Valid()
    requires forall k :: k in todo ==> k in st.insts
    decreases |todo|
    ensures Known(st') && st'.executeList.Valid()
    ensures forall j :: j in st'.insts <==> j in st.insts
    ensures st' == st.(insts := st'.insts, ready := st'.ready, mapTable := st'.mapTable, executeList := st'.executeList)
  {
    if |todo| == 0 then st
    else
      var k := todo[0];
      var st1 := ExecuteStep(st, k);
      ExecuteLoop(st1, todo[1..])
  }

  /**
   * execute: the execute list is walked from its tail, the oldest entry,
   * as the C comment says (program order). Returns TRUE when the list is
   * then empty.
   */
  function Execute(st: Sched): (r: (bool, Sched))
    requires Known(st) && st.executeList.Valid()
    ensures Known(r.1) && r.1.executeList.Valid()
    ensures r.1 == ExecuteLoop(st, Q.Visit(st.executeList, Q.TailFirst))
    ensures r.0 <==> |r.1.executeList.cells| == 0
  {
    var st' := ExecuteLoop(st, Q.Visit(st.executeList, Q.TailFirst));
    (st'.executeList.numElems == 0, st')
  }

  /**
   * The execute list after the walk: exactly the visited entries that
   * complete leave it, and no entry occurs twice.
   */
  lemma {:induction false} ExecuteLoopList(st: Sched, todo: seq<nat>)
    requires Known(st) && st.executeList.Valid() && Q.Distinct(st.executeList.cells)
    requires Q.Distinct(todo) && forall k :: k in todo ==> k in st.executeList.cells
    decreases |todo|
    ensures Q.Distinct(ExecuteLoop(st, todo).executeList.cells)
    ensures forall j :: j in ExecuteLoop(st, todo).executeList.cells <==>
      j in st.executeList.cells && !(j in todo && Completes(st.cycle, st.insts[j]))
  {
    if |todo| > 0 {
      var k := todo[0];
      var st1 := ExecuteStep(st, k);
      forall j | j in todo[1..]
        ensures j != k && j in st1.executeList.cells && (Completes(st1.cycle, st1.insts[j]) <==> Completes(st.cycle, st.insts[j]))
      {
        var m :| 1 <= m < |todo| && todo[m] == j;
      }
      ExecuteLoopList(st1, todo[1..]);
      var r := ExecuteLoop(st, todo);
      assert r == ExecuteLoop(st1, todo[1..]);
      forall j ensures j in r.executeList.cells <==> j in st.executeList.cells && !(j in todo && Completes(st.cycle, st.insts[j])) {
        if j == k {
          assert k !in todo[1..];
        } else {
          assert j in todo <==> j in todo[1..];
        }
      }
    }
  }

  /**
   * The records after the walk, when no visited entry is also waiting to
   * issue: each completing one is in WB from this cycle, every other record
   * outside the issue list is unchanged, and the waiting records differ
   * only in operand flags that were set.
   */
  lemma {:induction false} ExecuteLoopRecords(st: Sched, todo: seq<nat>, j: nat)
    requires Known(st) && st.executeList.Valid() && j in st.insts
    requires Q.Distinct(todo) && forall k :: k in todo ==> k in st.insts && k !in st.issueList.cells
    decreases |todo|
    ensures j in todo && Completes(st.cycle, st.insts[j]) ==>
      ExecuteLoop(st, todo).insts[j] == ToWB(st.insts[j], st.cycle)
    ensures j !in st.issueList.cells && !(j in todo && Completes(st.cycle, st.insts[j])) ==>
      ExecuteLoop(st, todo).insts[j] == st.insts[j]
    ensures j in st.issueList.cells ==> OnlyFlags(st.insts[j], ExecuteLoop(st, todo).insts[j])
  {
    if |todo| > 0 {
      var k := todo[0];
      var st1 := ExecuteStep(st, k);
      forall k' | k' in todo[1..] ensures k' != k && k' in st1.insts && k' !in st1.issueList.cells && st1.insts[k'] == st.insts[k'] {
        var m :| 1 <= m < |todo| && todo[m] == k';
      }
      ExecuteLoopRecords(st1, todo[1..], j);
      assert ExecuteLoop(st, todo) == ExecuteLoop(st1, todo[1..]);
      if j == k {
        assert k !in todo[1..];
      } else {
        assert j in todo <==> j in todo[1..];
      }
    }
  }

  /** The first (second = false) or second source operand of a record, and its ready flag. */
  function Src(i: Inst, second: bool): int {
    if second then i.src2 else i.src1
  }

  function SrcReady(i: Inst, second: bool): bool {
    if second then i.src2Ready else i.src1Ready
  }

  /** Some visited entry completes, writes a register, and is the given tag. */
  predicate WakesTag(st: Sched, todo: seq<nat>, tag: int)
    requires forall k :: k in todo ==> k in st.insts
  {
    exists k :: k in todo && Completes(st.cycle, st.insts[k]) && st.insts[k].dst != -1 && st.insts[k].seqNum == tag
  }

  /** One step of the walk: what it does to a waiting record and to the entries still to visit. */
  lemma WalkStep(st: Sched, todo: seq<nat>, j: nat, second: bool)
    requires Known(st) && st.executeList.Valid() && |todo| > 0
    requires Q.Distinct(todo) && forall k :: k in todo ==> k in st.insts && k !in st.issueList.cells
    requires j in st.issueList.cells
    ensures var k := todo[0];
      var st1 := ExecuteStep(st, k);
      && Known(st1) && st1.executeList.Valid() && st1.cycle == st.cycle && st1.issueList == st.issueList
      && (forall k' :: k' in todo[1..] ==> k' != k && k' in st1.insts && st1.insts[k'] == st.insts[k'])
      && ExecuteLoop(st, todo) == ExecuteLoop(st1, todo[1..])
      && Src(st1.insts[j], second) == Src(st.insts[j], second)
      && (SrcReady(st1.insts[j], second) <==>
            SrcReady(st.insts[j], second)
            || (Completes(st.cycle, st.insts[k]) && st.insts[k].dst != -1 && st.insts[k].seqNum == Src(st.insts[j], second)))
  {
    var k := todo[0];
    forall k' | k' in todo[1..] ensures k' != k {
      var m :| 1 <= m < |todo| && todo[m] == k';
    }
  }

  /**
   * dsWakeup over the walk: an operand of a waiting instruction is ready
   * afterwards exactly when it was ready before or it names a completing
   * instruction that writes a register.
   */
  lemma {:induction false} ExecuteLoopWakes(st: Sched, todo: seq<nat>, j: nat, second: bool)
    requires Known(st) && st.executeList.Valid()
    requires Q.Distinct(todo) && forall k :: k in todo ==> k in st.insts && k !in st.issueList.cells
    requires j in st.issueList.cells
    decreases |todo|
    ensures SrcReady(ExecuteLoop(st, todo).insts[j], second) <==>
      SrcReady(st.insts[j], second) || WakesTag(st, todo, Src(st.insts[j], second))
  {
    if |todo| > 0 {
      var k := todo[0];
      var st1 := ExecuteStep(st, k);
      var tag := Src(st.insts[j], second);
      WalkStep(st, todo, j, second);
      ExecuteLoopWakes(st1, todo[1..], j, second);
      WakesTagStep(st, st1, todo, tag);
    }
  }

  /** Whether the walk wakes the tag: the first entry does, or one of the rest does in the state after the first step. */
  lemma WakesTagStep(st: Sched, st1: Sched, todo: seq<nat>, tag: int)
    requires |todo| > 0 && (forall k :: k in todo ==> k in st.insts) && st1.cycle == st.cycle
    requires forall k' :: k' in todo[1..] ==> k' in st1.insts && st1.insts[k'] == st.insts[k']
    ensures WakesTag(st, todo, tag) <==>
      (Completes(st.cycle, st.insts[todo[0]]) && st.insts[todo[0]].dst != -1 && st.insts[todo[0]].seqNum == tag)
      || WakesTag(st1, todo[1..], tag)
  {
    var k := todo[0];
    if WakesTag(st1, todo[1..], tag) {
      var k' :| k' in todo[1..] && Completes(st1.cycle, st1.insts[k']) && st1.insts[k'].dst != -1 && st1.insts[k'].seqNum == tag;
      assert k' in todo;
    }
    if WakesTag(st, todo, tag) && !(Completes(st.cycle, st.insts[k]) && st.insts[k].dst != -1 && st.insts[k].seqNum == tag) {
      var k' :| k' in todo && Completes(st.cycle, st.insts[k']) && st.insts[k'].dst != -1 && st.insts[k'].seqNum == tag;
      assert k' in todo[1..];
    }
  }

  /** The invariant makes the execute walk well behaved: it visits each entry once, and none of them is waiting to issue. */
  lemma ExecuteWalkOk(st: Sched)
    requires Inv(st)
    ensures var todo := Q.Visit(st.executeList, Q.TailFirst);
      && Q.Distinct(todo)
      && (forall k :: k in todo <==> k in st.executeList.cells)
      && (forall k :: k in todo ==> k in st.insts && k !in st.issueList.cells)
  {
    Q.ReverseDistinct(st.executeList.cells);
    var todo := Q.Visit(st.executeList, Q.TailFirst);
    assert forall k :: k in todo <==> k in multiset(todo);
    assert forall k :: k in st.executeList.cells <==> k in multiset(st.executeList.cells);
  }

  /**
   * execute over a whole cycle, for the list: exactly the instructions in
   * EX for at least their latency leave the execute list.
   */
  lemma ExecuteRetires(st: Sched)
    requires Inv(st)
    ensures Q.Distinct(Execute(st).1.executeList.cells)
    ensures forall j :: j in Execute(st).1.executeList.cells <==> j in st.executeList.cells && !Completes(st.cycle, st.insts[j])
  {
    ExecuteWalkOk(st);
    ExecuteLoopList(st, Q.Visit(st.executeList, Q.TailFirst));
  }

  /**
   * execute over a whole cycle, for the records: each instruction that
   * completes is in WB from this cycle; the waiting ones of the issue list
   * change at most in their operand flags; no other record changes.
   */
  lemma ExecuteRecords(st: Sched)
    requires Inv(st)
    ensures forall j :: j in Execute(st).1.insts <==> j in st.insts
    ensures forall j :: j in st.executeList.cells && Completes(st.cycle, st.insts[j]) ==> Execute(st).1.insts[j] == ToWB(st.insts[j], st.cycle)
    ensures forall j :: j in st.insts && !(j in st.executeList.cells && Completes(st.cycle, st.insts[j])) && j !in st.issueList.cells ==>
      Execute(st).1.insts[j] == st.insts[j]
    ensures forall j :: j in st.issueList.cells ==> OnlyFlags(st.insts[j], Execute(st).1.insts[j])
  {
    var todo := Q.Visit(st.executeList, Q.TailFirst);
    ExecuteWalkOk(st);
    forall j | j in st.insts
      ensures j in todo && Completes(st.cycle, st.insts[j]) ==> ExecuteLoop(st, todo).insts[j] == ToWB(st.insts[j], st.cycle)
      ensures j !in st.issueList.cells && !(j in todo && Completes(st.cycle, st.insts[j])) ==> ExecuteLoop(st, todo).insts[j] == st.insts[j]
      ensures j in st.issueList.cells ==> OnlyFlags(st.insts[j], ExecuteLoop(st, todo).insts[j])
    {
      ExecuteLoopRecords(st, todo, j);
    }
  }

  /**
   * execute over a whole cycle, for the waiting instructions: an operand is
   * ready afterwards exactly when it was before or it names an instruction
   * that completes this cycle and writes a register.
   */
  lemma ExecuteWakes(st: Sched, j: nat, second: bool)
    requires Inv(st) && j in st.issueList.cells
    ensures j in Execute(st).1.insts
    ensures SrcReady(Execute(st).1.insts[j], second) <==>
      SrcReady(st.insts[j], second) || WakesTag(st, Q.Visit(st.executeList, Q.TailFirst), Src(st.insts[j], second))
  {
    ExecuteWalkOk(st);
    ExecuteLoopWakes(st, Q.Visit(st.executeList, Q.TailFirst), j, second);
  }

  /** execute keeps the invariant. */
  lemma ExecuteKeepsInv(st: Sched)
    requires Inv(st)
    ensures Inv(Execute(st).1)
  {
    ExecuteRecords(st);
    ExecuteRetires(st);
    ExecuteInvFrom(st, Execute(st).1);
  }

  /**
   * The invariant after execute, from what it does: records of the execute
   * list either stay or move to WB, waiting ones change only their operand
   * flags, and the execute list loses entries and gains none.
   */
  lemma ExecuteInvFrom(st: Sched, st': Sched)
    requires Inv(st) && Known(st') && st'.executeList.Valid()
    requires st' == st.(insts := st'.insts, ready := st'.ready, mapTable := st'.mapTable, executeList := st'.executeList)
    requires forall j :: j in st'.insts <==> j in st.insts
    requires forall j :: j in st.executeList.cells && Completes(st.cycle, st.insts[j]) ==> st'.insts[j] == ToWB(st.insts[j], st.cycle)
    requires forall j :: j in st.insts && !(j in st.executeList.cells && Completes(st.cycle, st.insts[j])) && j !in st.issueList.cells ==>
      st'.insts[j] == st.insts[j]
    requires forall j :: j in st.issueList.cells ==> OnlyFlags(st.insts[j], st'.insts[j])
    requires Q.Distinct(st'.executeList.cells)
    requires forall j :: j in st'.executeList.cells <==> j in st.executeList.cells && !Completes(st.cycle, st.insts[j])
    ensures Inv(st')
  {
    forall k | k in st'.insts ensures k < st'.seqNum && InstOk(k, st'.insts[k]) {
      assert k in st.insts && InstOk(k, st.insts[k]);
    }
    assert Holds(st', st'.dispatchList, IF, ID) by {
      forall k | k in st'.dispatchList.cells ensures k in st'.insts && st'.insts[k] == st.insts[k] {
        assert k in st.dispatchList.cells;
        assert k !in st.executeList.cells && k !in st.issueList.cells;
      }
    }
    assert Holds(st', st'.issueList, IS, IS);
    assert Holds(st', st'.executeList, EX, EX) by {
      forall k | k in st'.executeList.cells ensures k in st'.insts && st'.insts[k] == st.insts[k] {
        assert k !in st.issueList.cells;
      }
    }
  }

  // ---------------------------------------------------------------------
  // Issue
  // ---------------------------------------------------------------------

  /** dsIssuer's test: each operand is absent or ready. */
  predicate Eligible(i: Inst) {
    (i.src1 == -1 || i.src1Ready) && (i.src2 == -1 || i.src2Ready)
  }

  /** A handle whose record is ready to issue. */
  function IsEligible(insts: map<nat, Inst>): nat -> bool {
    k => k in insts && Eligible(insts[k])
  }

  /**
   * fifoForeach with dsIssuer fills tempQ by pushing, and issue pops it:
   * the ready entries of the issue list come out in the reverse of the
   * visiting order, each once.
   */
  function ReadyToIssue(p: Params, st: Sched): (r: seq<nat>)
    ensures forall k :: k in r <==> k in st.issueList.cells && k in st.insts && Eligible(st.insts[k])
    ensures Q.Distinct(st.issueList.cells) ==> Q.Distinct(r)
  {
    Collected(st.issueList, p.order, IsEligible(st.insts))
  }

  /**
   * A fifoForeach that pushes the entries passing a test onto the cleared
   * tempQ, followed by a loop that pops tempQ: the passing entries come out
   * in the reverse of the visiting order.
   */
  function Collected(q: Q.Fifo<nat>, order: Q.Order, keep: nat -> bool): (r: seq<nat>)
    ensures forall k :: k in r <==> k in q.cells && keep(k)
    ensures Q.Distinct(q.cells) ==> Q.Distinct(r)
  {
    var v := Q.Visit(q, order);
    var f := Q.Filter(v, keep);
    VisitDistinct(q, order);
    if Q.Distinct(q.cells) then
      Q.FilterDistinct(v, keep);
      Q.ReverseDistinct(f);
      Members(v, q.cells);
      Members(Q.Reverse(f), f);
      Q.Reverse(f)
    else
      Members(v, q.cells);
      Members(Q.Reverse(f), f);
      Q.Reverse(f)
  }

  /** Visiting a list without repeats yields no repeats. */
  lemma VisitDistinct<T>(q: Q.Fifo<T>, order: Q.Order)
    ensures Q.Distinct(q.cells) ==> Q.Distinct(Q.Visit(q, order))
  {
    if Q.Distinct(q.cells) && order == Q.TailFirst {
      Q.ReverseDistinct(q.cells);
    }
  }

  /** Sequences with the same multiset have the same members. */
  lemma Members<T>(a: seq<T>, b: seq<T>)
    requires multiset(a) == multiset(b)
    ensures forall x :: x in a <==> x in b
  {
    assert forall x :: x in a <==> x in multiset(a);
    assert forall x :: x in b <==> x in multiset(b);
  }

  /**
   * The cache plug-in of issue for a load: read L1; on a hit the L1-hit
   * latency; on a miss the L1-miss latency and a read of L2, and on a miss
   * there too (or with no L2 at all) the L2-miss latency. Returns the
   * latency and both caches after the reads.
   */
  function MemLatency(p: Params, l1: E.Hierarchy, l2: E.Hierarchy, a: Word): (r: (int, E.Hierarchy, E.Hierarchy))
    requires E.HierWF(l1) && E.HierWF(l2)
    ensures E.Preserves(l1, r.1) && E.Preserves(l2, r.2)
  {
    var c1 := E.Communicate(l1, a, E.Read);
    if c1.comm.hit then (p.latL1Hit, c1.h, l2)
    else
      var c2 := E.Communicate(l2, a, E.Read);
      (if c2.comm.hit then p.latL1Miss else p.latL2Miss, c1.h, c2.h)
  }

  /**
   * What a load's cache access amounts to: an L1 hit costs the L1-hit
   * latency and leaves L2 alone; an L1 miss reads L2 and costs the L1-miss
   * latency on an L2 hit, else the L2-miss latency. Without an L2 the
   * access there always misses.
   */
  lemma MemLatencyReads(p: Params, l1: E.Hierarchy, l2: E.Hierarchy, a: Word)
    requires E.HierWF(l1) && E.HierWF(l2)
    ensures var r, c1, c2 := MemLatency(p, l1, l2, a), E.Communicate(l1, a, E.Read), E.Communicate(l2, a, E.Read);
      && r.1 == c1.h
      && (c1.comm.hit ==> r.0 == p.latL1Hit && r.2 == l2)
      && (!c1.comm.hit ==> r.2 == c2.h && r.0 == (if c2.comm.hit then p.latL1Miss else p.latL2Miss))
      && (!c1.comm.hit && |l2| == 0 ==> r.0 == p.latL2Miss)
      && (|l1| == 0 ==> r.0 == (if c2.comm.hit then p.latL1Miss else p.latL2Miss))
  {
  }

  /**
   * Loading the same address twice: the second load hits L1 and costs the
   * L1-hit latency, whatever L2 holds, because the first allocated the
   * block (the scheduler's caches have no victim caches).
   */
  lemma RepeatLoadHitsL1(p: Params, l1: E.Hierarchy, l2: E.Hierarchy, l2': E.Hierarchy, a: Word)
    requires E.HierWF(l1) && E.HierWF(l2) && E.HierWF(l2') && |l1| > 0 && Plain(l1)
    ensures MemLatency(p, MemLatency(p, l1, l2, a).1, l2', a).0 == p.latL1Hit
  {
    AccessFacts.AllocatedBlockHits(l1, a, E.Read);
    MemLatencyReads(p, l1, l2, a);
    MemLatencyReads(p, MemLatency(p, l1, l2, a).1, l2', a);
  }

  /** The record moved to EX this cycle (the first three assignments of the issue loop). */
  function ToEX(i: Inst, cycle: int): (x: Inst)
    ensures x.stage == EX && x.exStart == cycle && x.isDuration == cycle - i.isStart
    ensures x.seqNum == i.seqNum && x.kind == i.kind && x.dst == i.dst && x.latency == i.latency
  {
    i.(isDuration := cycle - i.isStart, exStart := cycle, stage := EX)
  }

  /**
   * The issue loop on the parts it touches (records, issue list, execute
   * list): pop candidates while fewer than n have issued this cycle; each
   * moves to EX, goes on the execute list and leaves the issue list. (The
   * cache accesses of the loads are applied by LoadLatencies.)
   */
  function IssueLoop(p: Params, cycle: int, insts: map<nat, Inst>, issue: Q.Fifo<nat>, exec: Q.Fifo<nat>, cands: seq<nat>, iss: int)
    : (r: (map<nat, Inst>, Q.Fifo<nat>, Q.Fifo<nat>))
    requires issue.Valid() && exec.Valid()
    requires forall k :: k in cands ==> k in insts
    decreases |cands|
    ensures r.1.Valid() && r.2.Valid()
    ensures forall j :: j in r.0 <==> j in insts
    ensures forall j :: j in insts ==> r.0[j].dst == insts[j].dst && r.0[j].kind == insts[j].kind
    ensures forall j :: j in r.1.cells ==> j in issue.cells
    ensures forall j :: j in r.2.cells ==> j in exec.cells || j in cands
  {
    if iss < p.n && |cands| > 0 then
      var k := cands[0];
      IssueLoop(p, cycle, insts[k := ToEX(insts[k], cycle)], Q.RemoveItem(issue, k), Q.Push(exec, k), cands[1..], iss + 1)
    else (insts, issue, exec)
  }

  /**
   * The cache plug-in applied to the instructions issued this cycle, in
   * issue order: each load (type 2), when there is an L1, takes its latency
   * from MemLatency on the caches as the earlier loads left them. Only the
   * latencies and the caches change.
   */
  function LoadLatencies(p: Params, st: Sched, ks: seq<nat>): (st': Sched)
    requires E.HierWF(st.l1) && E.HierWF(st.l2)
    requires forall k :: k in ks ==> k in st.insts
    decreases |ks|
    ensures E.Preserves(st.l1, st'.l1) && E.Preserves(st.l2, st'.l2)
    ensures st' == st.(insts := st'.insts, l1 := st'.l1, l2 := st'.l2)
    ensures forall j :: j in st'.insts <==> j in st.insts
    ensures forall j :: j in st.insts ==> st'.insts[j] == st.insts[j].(latency := st'.insts[j].latency)
    ensures forall j :: j in st.insts && (j !in ks || st.insts[j].kind != 2 || |st.l1| == 0) ==> st'.insts[j] == st.insts[j]
  {
    if |ks| == 0 then st
    else
      var st1 := LoadOne(p, st, ks[0]);
      var st' := LoadLatencies(p, st1, ks[1..]);
      LatencyOnlyTrans(st.insts, st1.insts, st'.insts);
      E.PreservesTrans(st.l1, st1.l1, st'.l1);
      E.PreservesTrans(st.l2, st1.l2, st'.l2);
      st'
  }

  /** The cache plug-in for one issued instruction: a load, when there is an L1, takes its latency from MemLatency. */
  function LoadOne(p: Params, st: Sched, k: nat): (st': Sched)
    requires E.HierWF(st.l1) && E.HierWF(st.l2) && k in st.insts
    ensures E.Preserves(st.l1, st'.l1) && E.Preserves(st.l2, st'.l2)
    ensures st' == st.(insts := st'.insts, l1 := st'.l1, l2 := st'.l2)
    ensures forall j :: j in st'.insts <==> j in st.insts
    ensures forall j :: j in st.insts ==> st'.insts[j] == st.insts[j].(latency := st'.insts[j].latency)
    ensures forall j :: j in st.insts && (j != k || st.insts[j].kind != 2 || |st.l1| == 0) ==> st'.insts[j] == st.insts[j]
  {
    var i := st.insts[k];
    if i.kind == 2 && |st.l1| > 0 then
      var m := MemLatency(p, st.l1, st.l2, i.mem);
      st.(insts := st.insts[k := i.(latency := m.0)], l1 := m.1, l2 := m.2)
    else st
  }

  /** Records that differ at most in their latencies, twice over, differ at most in their latencies. */
  lemma LatencyOnlyTrans(a: map<nat, Inst>, b: map<nat, Inst>, c: map<nat, Inst>)
    requires forall j :: j in b <==> j in a
    requires forall j :: j in c <==> j in b
    requires forall j :: j in a ==> b[j] == a[j].(latency := b[j].latency)
    requires forall j :: j in b ==> c[j] == b[j].(latency := c[j].latency)
    ensures forall j :: j in a ==> c[j] == a[j].(latency := c[j].latency)
  {
  }

  /** How many candidates the loop issues: as many as there are, but at most n - iss. */
  function IssueCount(p: Params, cands: seq<nat>, iss: int): (m: nat)
    ensures m <= |cands| && (m > 0 ==> m <= p.n - iss)
    ensures m == |cands| || m == p.n - iss || (m == 0 && p.n <= iss)
  {
    if p.n - iss <= 0 then 0 else Min(p.n - iss, |cands|)
  }

  /** n when it is positive, else 0. */
  function Max0(n: int): nat {
    if n > 0 then n else 0
  }

  /** The instructions issue sends to EX this cycle, in issue order. */
  function Issued(p: Params, st: Sched): (r: seq<nat>)
    ensures |r| <= Max0(p.n)
    ensures forall k :: k in r ==> k in st.issueList.cells && k in st.insts && Eligible(st.insts[k])
    ensures Q.Distinct(st.issueList.cells) ==> Q.Distinct(r)
  {
    var cands := ReadyToIssue(p, st);
    cands[..IssueCount(p, cands, 0)]
  }

  /**
   * issue: the ready instructions of the issue list, up to n of them, go to
   * EX, the loads among them reading the caches. Returns TRUE when the
   * issue list is then empty.
   */
  function Issue(p: Params, st: Sched): (r: (bool, Sched))
    requires Known(st) && st.issueList.Valid() && st.executeList.Valid()
    requires E.HierWF(st.l1) && E.HierWF(st.l2)
    ensures Known(r.1) && r.1.issueList.Valid() && r.1.executeList.Valid()
    ensures E.Preserves(st.l1, r.1.l1) && E.Preserves(st.l2, r.1.l2)
    ensures r.1 == IssueCore(p, st).(insts := r.1.insts, l1 := r.1.l1, l2 := r.1.l2)
    ensures r.0 <==> |r.1.issueList.cells| == 0
    ensures forall j :: j in r.1.insts <==> j in st.insts
    ensures forall j :: j in st.insts ==> r.1.insts[j] == IssueCore(p, st).insts[j].(latency := r.1.insts[j].latency)
    ensures forall j :: j in st.insts && (j !in Issued(p, st) || st.insts[j].kind != 2 || |st.l1| == 0) ==>
      r.1.insts[j] == IssueCore(p, st).insts[j]
  {
    var st' := LoadLatencies(p, IssueCore(p, st), Issued(p, st));
    (st'.issueList.numElems == 0, st')
  }

  /** The list pass of issue, before the loads read the caches. */
  function IssueCore(p: Params, st: Sched): (r: Sched)
    requires Known(st) && st.issueList.Valid() && st.executeList.Valid()
    ensures Known(r) && r.issueList.Valid() && r.executeList.Valid()
    ensures r == st.(insts := r.insts, issueList := r.issueList, executeList := r.executeList)
    ensures forall j :: j in r.insts <==> j in st.insts
  {
    var t := IssueLoop(p, st.cycle, st.insts, st.issueList, st.executeList, ReadyToIssue(p, st), 0);
    st.(insts := t.0, issueList := t.1, executeList := t.2)
  }

  /** ToEX applied to the records of xs in turn. */
  function ToEXAll(insts: map<nat, Inst>, xs: seq<nat>, cycle: int): (r: map<nat, Inst>)
    requires forall k :: k in xs ==> k in insts
    ensures forall j :: j in r <==> j in insts
    decreases |xs|
  {
    if |xs| == 0 then insts else ToEXAll(insts[xs[0] := ToEX(insts[xs[0]], cycle)], xs[1..], cycle)
  }

  /** One turn of ToEXAll. */
  lemma ToEXAllStep(insts: map<nat, Inst>, xs: seq<nat>, cycle: int)
    requires (forall k :: k in xs ==> k in insts) && |xs| > 0
    ensures forall k :: k in xs[1..] ==> k in insts[xs[0] := ToEX(insts[xs[0]], cycle)]
    ensures ToEXAll(insts, xs, cycle) == ToEXAll(insts[xs[0] := ToEX(insts[xs[0]], cycle)], xs[1..], cycle)
  {
    forall k | k in xs[1..] ensures k in insts {
      var i :| 0 <= i < |xs| - 1 && xs[1..][i] == k;
      assert xs[i + 1] == k;
    }
  }

  /** After ToEXAll a record of xs is in EX from this cycle, and any other record is as it was. */
  lemma {:induction false} ToEXAllRecord(insts: map<nat, Inst>, xs: seq<nat>, cycle: int, j: nat)
    requires (forall k :: k in xs ==> k in insts) && j in insts
    ensures j in xs ==> ToEXAll(insts, xs, cycle)[j] == ToEX(insts[j], cycle)
    ensures j !in xs ==> ToEXAll(insts, xs, cycle)[j] == insts[j]
    decreases |xs|
  {
    if |xs| > 0 {
      var k := xs[0];
      var insts1 := insts[k := ToEX(insts[k], cycle)];
      ToEXAllRecord(insts1, xs[1..], cycle, j);
      assert j in xs <==> j == k || j in xs[1..];
      if j == k && j in xs[1..] {
        assert ToEX(ToEX(insts[k], cycle), cycle) == ToEX(insts[k], cycle);
      }
    }
  }

  /** One turn of the issue loop. */
  lemma IssueLoopStep(p: Params, cycle: int, insts: map<nat, Inst>, issue: Q.Fifo<nat>, exec: Q.Fifo<nat>, cands: seq<nat>, iss: int)
    requires issue.Valid() && exec.Valid()
    requires forall k :: k in cands ==> k in insts
    requires iss < p.n && |cands| > 0
    ensures forall k :: k in cands[1..] ==> k in insts[cands[0] := ToEX(insts[cands[0]], cycle)]
    ensures IssueLoop(p, cycle, insts, issue, exec, cands, iss)
         == IssueLoop(p, cycle, insts[cands[0] := ToEX(insts[cands[0]], cycle)], Q.RemoveItem(issue, cands[0]),
                      Q.Push(exec, cands[0]), cands[1..], iss + 1)
    ensures IssueCount(p, cands[1..], iss + 1) == IssueCount(p, cands, iss) - 1
  {
    forall k | k in cands[1..] ensures k in insts {
      var i :| 0 <= i < |cands| - 1 && cands[1..][i] == k;
      assert cands[i + 1] == k;
    }
  }

  /** The first m of a sequence are its head and the first m - 1 of its tail. */
  lemma PrefixStep<T>(s: seq<T>, m: nat)
    requires 0 < m <= |s|
    ensures |s[..m]| > 0 && s[..m][0] == s[0] && s[..m][1..] == s[1..][..m - 1]
  {
  }

  /** The issue loop sends the first IssueCount candidates to EX, in turn. */
  lemma {:induction false} IssueLoopMoves(p: Params, cycle: int, insts: map<nat, Inst>, issue: Q.Fifo<nat>, exec: Q.Fifo<nat>, cands: seq<nat>, iss: int)
    requires issue.Valid() && exec.Valid()
    requires forall k :: k in cands ==> k in insts
    ensures IssueLoop(p, cycle, insts, issue, exec, cands, iss).0 == ToEXAll(insts, cands[..IssueCount(p, cands, iss)], cycle)
    decreases |cands|
  {
    var m := IssueCount(p, cands, iss);
    if iss < p.n && |cands| > 0 {
      var k := cands[0];
      var insts' := insts[k := ToEX(insts[k], cycle)];
      IssueLoopStep(p, cycle, insts, issue, exec, cands, iss);
      IssueLoopMoves(p, cycle, insts', Q.RemoveItem(issue, k), Q.Push(exec, k), cands[1..], iss + 1);
      assert ToEXAll(insts, cands[..m], cycle) == ToEXAll(insts', cands[1..][..m - 1], cycle) by {
        PrefixStep(cands, m);
        Q.PrefixMembers(cands, m);
        ToEXAllStep(insts, cands[..m], cycle);
      }
    } else {
      assert m == 0;
    }
  }

  /** The issue loop unlinks the first IssueCount candidates from the issue list, in turn. */
  lemma {:induction false} IssueLoopRemoves(p: Params, cycle: int, insts: map<nat, Inst>, issue: Q.Fifo<nat>, exec: Q.Fifo<nat>, cands: seq<nat>, iss: int)
    requires issue.Valid() && exec.Valid()
    requires forall k :: k in cands ==> k in insts
    ensures IssueLoop(p, cycle, insts, issue, exec, cands, iss).1 == Q.RemoveAll(issue, cands[..IssueCount(p, cands, iss)])
    decreases |cands|
  {
    var m := IssueCount(p, cands, iss);
    if iss < p.n && |cands| > 0 {
      var k := cands[0];
      IssueLoopStep(p, cycle, insts, issue, exec, cands, iss);
      IssueLoopRemoves(p, cycle, insts[k := ToEX(insts[k], cycle)], Q.RemoveItem(issue, k), Q.Push(exec, k), cands[1..], iss + 1);
      PrefixStep(cands, m);
      Q.RemoveAllStep(issue, cands[..m]);
    } else {
      assert m == 0;
    }
  }

  /** The issue loop pushes the first IssueCount candidates on the execute list, in turn: the last one issued ends at the head. */
  lemma {:induction false} IssueLoopPushes(p: Params, cycle: int, insts: map<nat, Inst>, issue: Q.Fifo<nat>, exec: Q.Fifo<nat>, cands: seq<nat>, iss: int)
    requires issue.Valid() && exec.Valid()
    requires forall k :: k in cands ==> k in insts
    ensures IssueLoop(p, cycle, insts, issue, exec, cands, iss).2 == Q.PushAll(exec, cands[..IssueCount(p, cands, iss)])
    decreases |cands|
  {
    var m := IssueCount(p, cands, iss);
    if iss < p.n && |cands| > 0 {
      var k := cands[0];
      IssueLoopStep(p, cycle, insts, issue, exec, cands, iss);
      IssueLoopPushes(p, cycle, insts[k := ToEX(insts[k], cycle)], Q.RemoveItem(issue, k), Q.Push(exec, k), cands[1..], iss + 1);
      PrefixStep(cands, m);
      Q.PushAllStep(exec, cands[..m]);
    } else {
      assert m == 0;
    }
  }

  /**
   * issue over a whole cycle, for the lists: the instructions that issue
   * are the first of the ready ones, at most n (Issued); they leave the
   * issue list and are pushed on the execute list in that order.
   */
  lemma IssueLists(p: Params, st: Sched)
    requires Known(st) && st.issueList.Valid() && st.executeList.Valid()
    requires Q.Distinct(st.issueList.cells)
    ensures Q.Distinct(IssueCore(p, st).issueList.cells)
    ensures forall j :: j in IssueCore(p, st).issueList.cells <==> j in st.issueList.cells && j !in Issued(p, st)
    ensures IssueCore(p, st).executeList.cells == Q.Reverse(Issued(p, st)) + st.executeList.cells
  {
    IssueLoopRemoves(p, st.cycle, st.insts, st.issueList, st.executeList, ReadyToIssue(p, st), 0);
    IssueLoopPushes(p, st.cycle, st.insts, st.issueList, st.executeList, ReadyToIssue(p, st), 0);
    Q.RemoveAllMembers(st.issueList, Issued(p, st));
    Q.PushAllCells(st.executeList, Issued(p, st));
  }

  /**
   * issue over a whole cycle, for one record: an instruction that issues
   * enters EX from this cycle, a load with its latency from the caches and
   * anything else with the latency its type gave it; no other record
   * changes.
   */
  lemma IssueRecord(p: Params, st: Sched, j: nat)
    requires Known(st) && st.issueList.Valid() && st.executeList.Valid() && E.HierWF(st.l1) && E.HierWF(st.l2)
    requires Q.Distinct(st.issueList.cells) && j in st.insts
    ensures j in Issued(p, st) ==>
      Issue(p, st).1.insts[j] == ToEX(st.insts[j], st.cycle).(latency := Issue(p, st).1.insts[j].latency)
    ensures j in Issued(p, st) && (st.insts[j].kind != 2 || |st.l1| == 0) ==> Issue(p, st).1.insts[j] == ToEX(st.insts[j], st.cycle)
    ensures j !in Issued(p, st) ==> Issue(p, st).1.insts[j] == st.insts[j]
  {
    IssueCoreRecord(p, st, j);
  }

  /** The list pass, for one record: the issued ones are in EX from this cycle, the others unchanged. */
  lemma IssueCoreRecord(p: Params, st: Sched, j: nat)
    requires Known(st) && st.issueList.Valid() && st.executeList.Valid()
    requires Q.Distinct(st.issueList.cells) && j in st.insts
    ensures j in Issued(p, st) ==> IssueCore(p, st).insts[j] == ToEX(st.insts[j], st.cycle)
    ensures j !in Issued(p, st) ==> IssueCore(p, st).insts[j] == st.insts[j]
  {
    IssueLoopMoves(p, st.cycle, st.insts, st.issueList, st.executeList, ReadyToIssue(p, st), 0);
    ToEXAllRecord(st.insts, Issued(p, st), st.cycle, j);
  }

  /** issue keeps the invariant. */
  lemma IssueKeepsInv(p: Params, st: Sched)
    requires Inv(st)
    ensures Inv(Issue(p, st).1)
  {
    var core, st', taken := IssueCore(p, st), Issue(p, st).1, Issued(p, st);
    IssueMovesLists(p, st);
    IssueMovesRecords(p, st);
    LatencyKeepsMoved(st, core.insts, st'.insts, taken);
    IssueInvFrom(st, st', taken);
  }

  /** How issue changes the lists: the taken handles leave the issue list and go on top of the execute list. */
  ghost predicate ListsMoved(st: Sched, issue: Q.Fifo<nat>, exec: Q.Fifo<nat>, taken: seq<nat>) {
    && (forall k :: k in taken ==> k in st.issueList.cells)
    && issue.Valid() && Q.Distinct(issue.cells)
    && (forall k :: k in issue.cells <==> k in st.issueList.cells && k !in taken)
    && exec.Valid() && exec.cells == Q.Reverse(taken) + st.executeList.cells
    && Q.Distinct(Q.Reverse(taken)) && (forall k :: k in Q.Reverse(taken) <==> k in taken)
  }

  /** How issue changes the records: the taken ones enter EX; the others stay as they were. */
  ghost predicate RecordsMoved(st: Sched, insts: map<nat, Inst>, taken: seq<nat>) {
    && (forall k :: k in insts <==> k in st.insts)
    && (forall k :: k in st.insts && k in taken ==>
          && insts[k].stage == EX && insts[k].seqNum == st.insts[k].seqNum
          && insts[k].kind == st.insts[k].kind && insts[k].dst == st.insts[k].dst)
    && (forall k :: k in st.insts && k !in taken ==> insts[k] == st.insts[k])
  }

  lemma IssueMovesLists(p: Params, st: Sched)
    requires Known(st) && st.issueList.Valid() && st.executeList.Valid()
    requires Q.Distinct(st.issueList.cells)
    ensures ListsMoved(st, IssueCore(p, st).issueList, IssueCore(p, st).executeList, Issued(p, st))
  {
    var taken := Issued(p, st);
    assert Q.Distinct(Q.Reverse(taken)) && (forall k :: k in Q.Reverse(taken) <==> k in taken) by {
      Q.ReverseDistinct(taken);
      Members(Q.Reverse(taken), taken);
    }
    assert Q.Distinct(IssueCore(p, st).issueList.cells)
      && (forall j :: j in IssueCore(p, st).issueList.cells <==> j in st.issueList.cells && j !in taken)
      && IssueCore(p, st).executeList.cells == Q.Reverse(taken) + st.executeList.cells by {
      IssueLists(p, st);
    }
  }

  lemma IssueMovesRecords(p: Params, st: Sched)
    requires Known(st) && st.issueList.Valid() && st.executeList.Valid()
    requires Q.Distinct(st.issueList.cells)
    ensures RecordsMoved(st, IssueCore(p, st).insts, Issued(p, st))
  {
    forall k | k in st.insts {
      IssueCoreRecord(p, st, k);
    }
  }

  /** Changing latencies, and only those of the taken records, keeps RecordsMoved. */
  lemma LatencyKeepsMoved(st: Sched, a: map<nat, Inst>, b: map<nat, Inst>, taken: seq<nat>)
    requires RecordsMoved(st, a, taken)
    requires forall j :: j in b <==> j in st.insts
    requires forall j :: j in st.insts ==> b[j] == a[j].(latency := b[j].latency)
    requires forall j :: j in st.insts && j !in taken ==> b[j] == a[j]
    ensures RecordsMoved(st, b, taken)
  {
  }

  /**
   * The invariant after moving the instructions taken from the issue list
   * to EX and onto the execute list, whatever else happens to their
   * latencies and to the caches.
   */
  lemma IssueInvFrom(st: Sched, st': Sched, taken: seq<nat>)
    requires Inv(st)
    requires st' == st.(insts := st'.insts, issueList := st'.issueList, executeList := st'.executeList, l1 := st'.l1, l2 := st'.l2)
    requires E.Preserves(st.l1, st'.l1) && E.Preserves(st.l2, st'.l2)
    requires ListsMoved(st, st'.issueList, st'.executeList, taken) && RecordsMoved(st, st'.insts, taken)
    ensures Inv(st')
  {
    forall k | k in st'.insts ensures k < st'.seqNum && InstOk(k, st'.insts[k]) {
      assert InstOk(k, st.insts[k]);
    }
    assert Holds(st', st'.dispatchList, IF, ID) by {
      forall k | k in st'.dispatchList.cells ensures k !in taken {
        assert k !in st.issueList.cells;
      }
    }
    assert Holds(st', st'.issueList, IS, IS);
    forall k | k in taken ensures k !in st.executeList.cells {
      assert k in st.issueList.cells;
    }
    forall k | k in st.executeList.cells ensures k !in taken {
      assert k !in st.issueList.cells;
    }
    AppendDistinct(Q.Reverse(taken), st.executeList.cells);
    assert Holds(st', st'.executeList, EX, EX);
  }

  /** Two sequences without repeats and without common members concatenate without repeats. */
  lemma AppendDistinct<T>(a: seq<T>, b: seq<T>)
    requires Q.Distinct(a) && Q.Distinct(b) && forall x :: x in a ==> x !in b
    ensures Q.Distinct(a + b)
  {
    forall i, j | 0 <= i < j < |a + b| ensures (a + b)[i] != (a + b)[j] {
      if i < |a| && j >= |a| {
        assert (a + b)[i] in a && (a + b)[j] == b[j - |a|];
      }
    }
  }
}
