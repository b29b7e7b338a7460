/**
 * The instruction container of fifo.c: a singly linked list that pushes
 * and pops at its head, so it behaves as a stack, plus the tail-side and
 * search helpers the scheduler relies on. The list is a sequence whose
 * first element is the head (the most recent push); numElems is kept as
 * its own field, as in fifoT, and Valid states that it counts the cells.
 */
module Container {
  import opened Wrappers

  /** fifoT: the payloads from head to tail, and the element count. */
  datatype Fifo<T> = Fifo(cells: seq<T>, numElems: int)
  {
    /** numElems equals the number of linked cells. */
    predicate Valid() {
      numElems == |cells|
    }
  }

  /** fifoInit: no cells and a zero count. */
  function Init<T>(): (q: Fifo<T>)
    ensures q.Valid() && q.numElems == 0
  {
    Fifo([], 0)
  }

  /** fifoPush: the payload becomes the head, in front of the old cells, and the count goes up by one. */
  function Push<T>(q: Fifo<T>, x: T): (r: Fifo<T>)
    ensures r.numElems == q.numElems + 1
    ensures |r.cells| == |q.cells| + 1 && r.cells[0] == x && r.cells[1..] == q.cells
    ensures q.Valid() ==> r.Valid()
  {
    Fifo([x] + q.cells, q.numElems + 1)
  }

  /**
   * fifoPop: nothing (NULL) from an empty container, which stays as it is;
   * otherwise the head, the most recent push, is unlinked and returned.
   */
  function Pop<T>(q: Fifo<T>): (r: (Option<T>, Fifo<T>))
    requires q.Valid()
    ensures r.1.Valid()
    ensures q.numElems == 0 ==> r.0.None? && r.1 == q
    ensures q.numElems > 0 ==>
      r.0 == Some(q.cells[0]) && r.1.numElems == q.numElems - 1 && r.1.cells == q.cells[1..]
  {
    if q.numElems == 0 then (None, q)
    else (Some(q.cells[0]), Fifo(q.cells[1..], q.numElems - 1))
  }

  /**
   * fifoPopConditional: success only when there is a head and the predicate
   * holds on it, and then exactly what Pop does; otherwise nothing changes.
   */
  function PopConditional<T>(q: Fifo<T>, p: T -> bool): (r: (bool, Option<T>, Fifo<T>))
    requires q.Valid()
    ensures r.0 <==> (|q.cells| > 0 && p(q.cells[0]))
    ensures r.0 ==> (r.1, r.2) == Pop(q)
    ensures !r.0 ==> r.1.None? && r.2 == q
  {
    if |q.cells| == 0 then (false, None, q)
    else if p(q.cells[0]) then
      var (x, q') := Pop(q);
      (true, x, q')
    else (false, None, q)
  }

  /**
   * fifoPeekNth: fails for n at or beyond the count; otherwise the payload n
   * links from the head. A negative n leaves the walk at the head; on an
   * empty container the C code then aborts on its ASSERT, so that case is
   * excluded.
   */
  function PeekNth<T>(q: Fifo<T>, n: int): (r: Option<T>)
    requires q.Valid() && (n >= 0 || q.numElems > 0)
    ensures r.None? <==> n >= q.numElems
    ensures 0 <= n < q.numElems ==> r == Some(q.cells[n])
    ensures n < 0 ==> r == Some(q.cells[0])
  {
    if n >= q.numElems then None
    else if n < 0 then Some(q.cells[0])
    else Some(q.cells[n])
  }

  /** fifoNumElems. */
  function NumElems<T>(q: Fifo<T>): (k: int)
    ensures q.Valid() ==> k == |q.cells|
  {
    q.numElems
  }

  // ---------------------------------------------------------------------
  // Helpers the scheduler calls that fifo.c does not define. The tail is
  // the oldest push.
  // ---------------------------------------------------------------------

  /** fifoPopTailConditional: pops the oldest element when there is one and the predicate holds on it. */
  function PopTailConditional<T>(q: Fifo<T>, p: T -> bool): (r: (bool, Option<T>, Fifo<T>))
    requires q.Valid()
    ensures r.2.Valid()
    ensures r.0 <==> (|q.cells| > 0 && p(q.cells[|q.cells| - 1]))
    ensures r.0 ==>
      && r.1 == Some(q.cells[|q.cells| - 1])
      && r.2.cells == q.cells[..|q.cells| - 1]
    ensures !r.0 ==> r.1.None? && r.2 == q
  {
    if |q.cells| == 0 then (false, None, q)
    else
      var last := q.cells[|q.cells| - 1];
      if p(last) then (true, Some(last), Fifo(q.cells[..|q.cells| - 1], q.numElems - 1))
      else (false, None, q)
  }

  /** The position of the first element, from the head, that satisfies p; |s| when none does. */
  function FirstMatch<T>(s: seq<T>, p: T -> bool): (i: nat)
    ensures i <= |s|
    ensures i < |s| ==> p(s[i])
    ensures forall j :: 0 <= j < i ==> !p(s[j])
  {
    if |s| == 0 then 0
    else if p(s[0]) then 0
    else 1 + FirstMatch(s[1..], p)
  }

  /**
   * fifoSearchOpRemove with no operation, stopping at the first match: the
   * first element from the head that satisfies p is unlinked; the others
   * keep their order. Without a match nothing changes.
   */
  function RemoveFirst<T>(q: Fifo<T>, p: T -> bool): (r: Fifo<T>)
    requires q.Valid()
    ensures r.Valid()
    ensures var i := FirstMatch(q.cells, p);
      && (i == |q.cells| ==> r == q)
      && (i < |q.cells| ==> r.cells == q.cells[..i] + q.cells[i + 1..])
    ensures forall y :: y in r.cells ==> y in q.cells
  {
    var i := FirstMatch(q.cells, p);
    if i == |q.cells| then q
    else Fifo(q.cells[..i] + q.cells[i + 1..], q.numElems - 1)
  }

  /** The elements of s that satisfy p, in their order. */
  function Filter<T>(s: seq<T>, p: T -> bool): (r: seq<T>)
    ensures |r| <= |s|
    ensures forall i :: 0 <= i < |r| ==> r[i] in s && p(r[i])
    ensures forall i :: 0 <= i < |s| && p(s[i]) ==> s[i] in r
  {
    if |s| == 0 then []
    else if p(s[0]) then [s[0]] + Filter(s[1..], p)
    else Filter(s[1..], p)
  }

  /** The sequence back to front. */
  function Reverse<T>(s: seq<T>): (r: seq<T>)
    ensures |r| == |s| && multiset(r) == multiset(s)
    ensures forall i :: 0 <= i < |s| ==> r[i] == s[|s| - 1 - i]
  {
    if |s| == 0 then []
    else
      assert s == [s[0]] + s[1..];
      Reverse(s[1..]) + [s[0]]
  }

  /** No payload occurs twice. */
  predicate Distinct<T(==)>(s: seq<T>) {
    forall i, j :: 0 <= i < j < |s| ==> s[i] != s[j]
  }

  /** The search predicate that matches one payload. */
  function IsItem<T(==)>(k: T): T -> bool {
    x => x == k
  }

  /**
   * Unlinking a payload that occurs once: afterwards it is gone, every other
   * payload stays, and none occurs twice.
   */
  lemma RemoveDistinct<T>(q: Fifo<T>, k: T)
    requires q.Valid() && Distinct(q.cells) && k in q.cells
    ensures var r := RemoveFirst(q, IsItem(k));
      && Distinct(r.cells) && |r.cells| == |q.cells| - 1
      && k !in r.cells
      && forall y :: y in r.cells <==> y in q.cells && y != k
  {
    var i := FirstMatch(q.cells, IsItem(k));
    var j :| 0 <= j < |q.cells| && q.cells[j] == k;
    assert i <= j;
    var r := RemoveFirst(q, IsItem(k));
    assert r.cells == q.cells[..i] + q.cells[i + 1..];
    forall y | y in q.cells && y != k ensures y in r.cells {
      var m :| 0 <= m < |q.cells| && q.cells[m] == y;
      if m < i {
        assert r.cells[m] == y;
      } else {
        assert m > i;
        assert r.cells[m - 1] == y;
      }
    }
  }

  /**
   * fifoSearchOpRemove matching one payload: without repeats, exactly that
   * payload leaves and everything else stays; without a match nothing
   * changes.
   */
  function RemoveItem<T(==,!new)>(q: Fifo<T>, k: T): (r: Fifo<T>)
    requires q.Valid()
    ensures r.Valid() && r == RemoveFirst(q, IsItem(k))
    ensures forall y :: y in r.cells ==> y in q.cells
    ensures k !in q.cells ==> r == q
    ensures Distinct(q.cells) ==>
      && Distinct(r.cells) && k !in r.cells
      && (k in q.cells ==> |r.cells| == |q.cells| - 1)
      && forall y :: y in r.cells <==> y in q.cells && y != k
  {
    if k in q.cells then
      RemoveDistinctOrNot(q, k);
      RemoveFirst(q, IsItem(k))
    else
      assert FirstMatch(q.cells, IsItem(k)) == |q.cells|;
      RemoveFirst(q, IsItem(k))
  }

  lemma RemoveDistinctOrNot<T>(q: Fifo<T>, k: T)
    requires q.Valid() && k in q.cells
    ensures Distinct(q.cells) ==>
      var r := RemoveFirst(q, IsItem(k));
      && Distinct(r.cells) && |r.cells| == |q.cells| - 1
      && k !in r.cells
      && forall y :: y in r.cells <==> y in q.cells && y != k
  {
    if Distinct(q.cells) {
      RemoveDistinct(q, k);
    }
  }

  /** Keeping some payloads of a sequence without repeats leaves one without repeats. */
  lemma {:induction false} FilterDistinct<T>(s: seq<T>, p: T -> bool)
    requires Distinct(s)
    ensures Distinct(Filter(s, p))
  {
    if |s| > 0 {
      FilterDistinct(s[1..], p);
      var t := Filter(s[1..], p);
      if p(s[0]) {
        assert s[0] !in t;
        assert Filter(s, p) == [s[0]] + t;
      }
    }
  }

  /** Without repeats, the head does not occur again and the rest has no repeats either. */
  lemma DistinctTail<T>(s: seq<T>)
    requires Distinct(s) && |s| > 0
    ensures Distinct(s[1..]) && s[0] !in s[1..]
  {
    forall i | 0 <= i < |s| - 1 ensures s[1..][i] != s[0] {
      assert s[1..][i] == s[i + 1];
    }
  }

  /** A sequence without repeats whose members all occur in b is no longer than b. */
  lemma {:induction false} DistinctSubsetLength<T>(a: seq<T>, b: seq<T>)
    requires Distinct(a) && forall x :: x in a ==> x in b
    decreases |b|
    ensures |a| <= |b|
  {
    if |a| > 0 {
      var x := a[0];
      assert x in b;
      var j :| 0 <= j < |b| && b[j] == x;
      var b' := b[..j] + b[j + 1..];
      DistinctTail(a);
      forall y | y in a[1..] ensures y in b' {
        var m :| 0 <= m < |a| - 1 && a[1..][m] == y;
        assert a[m + 1] in a;
        var i :| 0 <= i < |b| && b[i] == y;
        if i < j {
          assert b'[i] == y;
        } else {
          assert b'[i - 1] == y;
        }
      }
      DistinctSubsetLength(a[1..], b');
    }
  }

  /** Reversal keeps a sequence free of repeats. */
  lemma ReverseDistinct<T>(s: seq<T>)
    requires Distinct(s)
    ensures Distinct(Reverse(s))
  {
  }

  /** The order in which fifoForeach visits the cells: from the head, or from the tail. */
  datatype Order = HeadFirst | TailFirst

  /** The cells in visiting order. */
  function Visit<T>(q: Fifo<T>, order: Order): (r: seq<T>)
    ensures |r| == |q.cells| && multiset(r) == multiset(q.cells)
    ensures order == HeadFirst ==> r == q.cells
    ensures order == TailFirst ==> forall i :: 0 <= i < |r| ==> r[i] == q.cells[|r| - 1 - i]
  {
    if order == HeadFirst then q.cells else Reverse(q.cells)
  }

  // ---------------------------------------------------------------------
  // Properties
  // ---------------------------------------------------------------------

  /** Pushing then popping returns the pushed payload and the original container. */
  lemma PushPop<T>(q: Fifo<T>, x: T)
    requires q.Valid()
    ensures Pop(Push(q, x)) == (Some(x), q)
  {
  }

  /** Popping a non-empty container and pushing the payload back restores it. */
  lemma PopPush<T>(q: Fifo<T>)
    requires q.Valid() && q.numElems > 0
    ensures Pop(q).0.Some? && Push(Pop(q).1, Pop(q).0.value) == q
  {
    assert [q.cells[0]] + q.cells[1..] == q.cells;
  }

  /** Pushes a sequence of payloads, first element first. */
  function PushAll<T>(q: Fifo<T>, xs: seq<T>): (r: Fifo<T>)
    ensures q.Valid() ==> r.Valid()
    ensures r.numElems == q.numElems + |xs|
    decreases |xs|
  {
    if |xs| == 0 then q else PushAll(Push(q, xs[0]), xs[1..])
  }

  /** Pushing a sequence puts it on top in reverse: its last element becomes the head. */
  lemma {:induction false} PushAllCells<T>(q: Fifo<T>, xs: seq<T>)
    ensures PushAll(q, xs).cells == Reverse(xs) + q.cells
    decreases |xs|
  {
    if |xs| > 0 {
      PushAllCells(Push(q, xs[0]), xs[1..]);
      assert Reverse(xs) == Reverse(xs[1..]) + [xs[0]];
    }
  }

  /** Removes each payload of xs in turn, as RemoveItem does for one. */
  function RemoveAll<T(==,!new)>(q: Fifo<T>, xs: seq<T>): (r: Fifo<T>)
    requires q.Valid()
    ensures r.Valid()
    decreases |xs|
  {
    if |xs| == 0 then q else RemoveAll(RemoveItem(q, xs[0]), xs[1..])
  }

  /** From a list without repeats, RemoveAll leaves exactly the payloads not in xs, still without repeats. */
  lemma {:induction false} RemoveAllMembers<T(!new)>(q: Fifo<T>, xs: seq<T>)
    requires q.Valid() && Distinct(q.cells)
    ensures Distinct(RemoveAll(q, xs).cells)
    ensures forall y :: y in RemoveAll(q, xs).cells <==> y in q.cells && y !in xs
    decreases |xs|
  {
    if |xs| > 0 {
      RemoveAllMembers(RemoveItem(q, xs[0]), xs[1..]);
      assert forall y :: y in xs <==> y == xs[0] || y in xs[1..];
    }
  }

  /** Pops n times, collecting the payloads in pop order. */
  function PopN<T>(q: Fifo<T>, n: nat): (r: (seq<T>, Fifo<T>))
    requires q.Valid() && n <= q.numElems
    ensures |r.0| == n && r.1.Valid() && r.1.numElems == q.numElems - n
    decreases n
  {
    if n == 0 then ([], q)
    else
      var (x, q') := Pop(q);
      var (rest, q'') := PopN(q', n - 1);
      ([x.value] + rest, q'')
  }

  /** Last in, first out: popping everything just pushed yields it in reverse, and the container as it was. */
  lemma {:induction false} LastInFirstOut<T>(q: Fifo<T>, xs: seq<T>)
    requires q.Valid()
    ensures PopN(PushAll(q, xs), |xs|) == (Reverse(xs), q)
    decreases |xs|
  {
    if |xs| > 0 {
      var q1 := Push(q, xs[0]);
      LastInFirstOut(q1, xs[1..]);
      PopNStep(PushAll(q, xs), |xs| - 1);
      PushPop(q, xs[0]);
    }
  }

  /** Popping n + 1 is popping n and then one more. */
  lemma {:induction false} PopNStep<T>(q: Fifo<T>, n: nat)
    requires q.Valid() && n + 1 <= q.numElems
    ensures var (xs, q') := PopN(q, n);
      q'.numElems > 0 && PopN(q, n + 1) == (xs + [Pop(q').0.value], Pop(q').1)
    decreases n
  {
    if n > 0 {
      var (x, q1) := Pop(q);
      PopNStep(q1, n - 1);
      var (xs1, r1) := PopN(q1, n - 1);
      assert PopN(q, n) == ([x.value] + xs1, r1);
      assert PopN(q, n + 1) == ([x.value] + PopN(q1, n).0, PopN(q1, n).1);
      assert [x.value] + (xs1 + [Pop(r1).0.value]) == ([x.value] + xs1) + [Pop(r1).0.value];
    } else {
      var (x, q1) := Pop(q);
      assert PopN(q1, 0) == ([], q1);
      assert [x.value] + [] == [x.value];
      assert PopN(q, 1) == ([x.value], q1);
      assert [] + [x.value] == [x.value];
    }
  }

  /** Pushing onto a non-empty container leaves its oldest element where the tail pop finds it. */
  lemma PushKeepsTail<T>(q: Fifo<T>, x: T, p: T -> bool)
    requires q.Valid() && q.numElems > 0
    ensures var (ok, y, q') := PopTailConditional(q, p);
      PopTailConditional(Push(q, x), p) == (ok, y, if ok then Push(q', x) else Push(q, x))
  {
    var r := Push(q, x);
    assert r.cells[|r.cells| - 1] == q.cells[|q.cells| - 1];
    assert r.cells[..|r.cells| - 1] == [x] + q.cells[..|q.cells| - 1];
  }

  /** PeekNth walks from the head: a push puts the new payload at 0 and moves the rest one link further. */
  lemma PeekAfterPush<T>(q: Fifo<T>, x: T, n: nat)
    requires q.Valid()
    ensures PeekNth(Push(q, x), 0) == Some(x)
    ensures PeekNth(Push(q, x), n + 1) == PeekNth(q, n)
  {
  }

  /** The first m elements are elements, and a prefix of a sequence without repeats has none. */
  lemma PrefixMembers<T>(c: seq<T>, m: nat)
    requires m <= |c|
    ensures forall k :: k in c[..m] ==> k in c
    ensures Distinct(c) ==> Distinct(c[..m])
  {
    forall k | k in c[..m] ensures k in c {
      var w :| 0 <= w < m && c[..m][w] == k;
      assert c[w] == k;
    }
  }

  /** One turn of RemoveAll. */
  lemma RemoveAllStep<T(!new)>(q: Fifo<T>, xs: seq<T>)
    requires q.Valid() && |xs| > 0
    ensures RemoveAll(q, xs) == RemoveAll(RemoveItem(q, xs[0]), xs[1..])
  {
  }

  /** One turn of PushAll. */
  lemma PushAllStep<T>(q: Fifo<T>, xs: seq<T>)
    requires |xs| > 0
    ensures PushAll(q, xs) == PushAll(Push(q, xs[0]), xs[1..])
  {
  }
}
