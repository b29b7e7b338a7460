/**
 * One set of a cache's tag store and the replacement policies that act on it
 * (the cacheFindReplacementUpdateCounter* and cacheHitUpdate* functions).
 *
 * A set is the sequence of its ways, way 0 first. Under LRU a way's counter
 * is its recency rank (0 = most recently used); under LFU it is a use count
 * with dynamic aging.
 */
module Replacement {

  /** One way of a set (tagT without the LRFU-only crf). */
  datatype Way = Way(tag: nat, valid: bool, dirty: bool, counter: nat)

  /** One set (tagStoreT): its ways and the LFU age baseline countSet. */
  datatype TagSet = TagSet(ways: seq<Way>, countSet: nat)

  /** Replacement policies (replacementPolicyT). */
  datatype Policy = LRU | LFU | LRFU

  /** A replacement decision: the updated ways and the way chosen for the new block. */
  datatype Choice = Choice(ways: seq<Way>, way: nat)

  /** Two ways hold the same line: same tag, valid and dirty bits; only the counter may differ. */
  predicate SameLine(a: Way, b: Way) {
    a.tag == b.tag && a.valid == b.valid && a.dirty == b.dirty
  }

  /** The LRU counters of a set are a permutation of 0 .. assoc-1. */
  predicate RanksArePermutation(ws: seq<Way>) {
    && (forall j :: 0 <= j < |ws| ==> ws[j].counter < |ws|)
    && (forall i, j :: 0 <= i < |ws| && 0 <= j < |ws| && i != j ==> ws[i].counter != ws[j].counter)
  }

  /** No tag is held by two valid ways of the set. */
  predicate UniqueValidTags(ws: seq<Way>) {
    forall i, j :: 0 <= i < j < |ws| && ws[i].valid && ws[j].valid ==> ws[i].tag != ws[j].tag
  }

  /** The ways of a freshly allocated set: zeroed, with LRU ranks equal to the way position. */
  function InitialWays(assoc: nat, policy: Policy): (ws: seq<Way>)
    ensures |ws| == assoc
    ensures forall j :: 0 <= j < assoc ==> ws[j].tag == 0 && !ws[j].valid && !ws[j].dirty
    ensures policy == LRU ==> RanksArePermutation(ws)
    ensures policy != LRU ==> forall j :: 0 <= j < assoc ==> ws[j].counter == 0
    ensures UniqueValidTags(ws)
  {
    seq(assoc, j requires 0 <= j => Way(0, false, false, if policy == LRU then j else 0))
  }

  /**
   * The hit scan of cacheDoReadWriteCommon: the first valid way holding the
   * tag, or |ws| (the loop's exit value, assoc) when there is none.
   */
  function FindHit(ws: seq<Way>, tag: nat): (k: nat)
    ensures k <= |ws|
    ensures k < |ws| ==> ws[k].valid && ws[k].tag == tag
    ensures forall j :: 0 <= j < k ==> !(ws[j].valid && ws[j].tag == tag)
  {
    if |ws| == 0 then 0
    else if ws[0].valid && ws[0].tag == tag then 0
    else 1 + FindHit(ws[1..], tag)
  }

  /** The free-way scan: the first way whose valid bit is clear, or |ws| when the set is full. */
  function FirstInvalid(ws: seq<Way>): (k: nat)
    ensures k <= |ws|
    ensures k < |ws| ==> !ws[k].valid
    ensures forall j :: 0 <= j < k ==> ws[j].valid
  {
    if |ws| == 0 then 0
    else if !ws[0].valid then 0
    else 1 + FirstInvalid(ws[1..])
  }

  /**
   * cacheHitUpdateLRU: every way more recent than the referenced one ages by
   * one rank and the referenced way becomes the most recent (rank 0).
   */
  function LruHitUpdate(ws: seq<Way>, k: nat): (r: seq<Way>)
    requires k < |ws|
    ensures |r| == |ws|
    ensures forall j :: 0 <= j < |ws| ==> SameLine(r[j], ws[j])
    ensures r[k].counter == 0
    ensures forall j :: 0 <= j < |ws| && ws[j].counter < ws[k].counter ==> r[j].counter == ws[j].counter + 1
    ensures forall j :: 0 <= j < |ws| && ws[j].counter > ws[k].counter ==> r[j].counter == ws[j].counter
    ensures RanksArePermutation(ws) ==> RanksArePermutation(r)
    ensures RanksArePermutation(ws) ==>
              forall i, j :: 0 <= i < |ws| && 0 <= j < |ws| && i != k && j != k ==>
                (ws[i].counter < ws[j].counter <==> r[i].counter < r[j].counter)
  {
    var hitRank := ws[k].counter;
    seq(|ws|, j requires 0 <= j < |ws| =>
      if j == k then ws[j].(counter := 0)
      else if ws[j].counter < hitRank then ws[j].(counter := ws[j].counter + 1)
      else ws[j])
  }

  /** The LRU eviction pass: every rank becomes (rank + 1) % assoc. */
  function LruAgeAll(ws: seq<Way>): (r: seq<Way>)
    ensures |r| == |ws|
    ensures forall j :: 0 <= j < |ws| ==> SameLine(r[j], ws[j])
    ensures forall j :: 0 <= j < |ws| ==> r[j].counter == (ws[j].counter + 1) % |ws|
  {
    seq(|ws|, j requires 0 <= j < |ws| => ws[j].(counter := (ws[j].counter + 1) % |ws|))
  }

  /** The eviction pass's pick: the last way whose counter is 0, or way 0 when none is. */
  function LastRankZero(ws: seq<Way>): (k: nat)
    ensures |ws| > 0 ==> k < |ws|
    ensures |ws| == 0 ==> k == 0
    ensures (exists j :: 0 <= j < |ws| && ws[j].counter == 0) ==>
              ws[k].counter == 0 && forall j :: k < j < |ws| ==> ws[j].counter != 0
  {
    if |ws| == 0 then 0
    else if ws[|ws| - 1].counter == 0 then |ws| - 1
    else LastRankZero(ws[..|ws| - 1])
  }

  /**
   * cacheFindReplacementUpdateCounterLRU. With an override (a free way was
   * found) the free way is used and promoted as on a hit; otherwise all ranks
   * rotate by one and the way whose rank wrapped to 0 is used.
   */
  function LruReplace(ws: seq<Way>, overrideWay: nat, doOverride: bool): (c: Choice)
    requires |ws| > 0
    requires doOverride ==> overrideWay < |ws|
    ensures |c.ways| == |ws| && c.way < |ws|
    ensures forall j :: 0 <= j < |ws| ==> SameLine(c.ways[j], ws[j])
    ensures doOverride ==> c.way == overrideWay && c.ways == LruHitUpdate(ws, overrideWay)
    ensures c.ways[c.way].counter == 0 || !RanksArePermutation(ws)
    ensures RanksArePermutation(ws) ==> RanksArePermutation(c.ways)
    ensures !doOverride && RanksArePermutation(ws) ==>
              && ws[c.way].counter == |ws| - 1
              && forall j :: 0 <= j < |ws| && j != c.way ==> c.ways[j].counter == ws[j].counter + 1
  {
    if doOverride then
      Choice(LruHitUpdate(ws, overrideWay), overrideWay)
    else
      LruEvictFacts(ws);
      var aged := LruAgeAll(ws);
      Choice(aged, LastRankZero(aged))
  }

  /** (c + 1) % n for a rank c below n: the oldest rank wraps to 0, every other one ages by one. */
  lemma AgedRank(c: nat, n: nat)
    requires c < n
    ensures (c + 1) % n == if c == n - 1 then 0 else c + 1
  {
    if c < n - 1 {
      ModSmallNat(c + 1, n);
    }
  }

  /** What the eviction pass does to a set whose ranks are a permutation. */
  lemma LruEvictFacts(ws: seq<Way>)
    requires |ws| > 0
    ensures var aged := LruAgeAll(ws); var k := LastRankZero(aged);
      RanksArePermutation(ws) ==>
        && RanksArePermutation(aged)
        && ws[k].counter == |ws| - 1 && aged[k].counter == 0
        && forall j :: 0 <= j < |ws| && j != k ==> aged[j].counter == ws[j].counter + 1
  {
    if RanksArePermutation(ws) {
      var n := |ws|;
      var aged := LruAgeAll(ws);
      forall j | 0 <= j < n
        ensures aged[j].counter == if ws[j].counter == n - 1 then 0 else ws[j].counter + 1
      {
        AgedRank(ws[j].counter, n);
      }
      var oldest := WayWithRank(ws, n - 1);
      assert aged[oldest].counter == 0;
      var k := LastRankZero(aged);
      assert aged[k].counter == 0;
    }
  }

  lemma ModSmallNat(x: nat, d: nat)
    requires x < d
    ensures x % d == x
  {
  }

  /** cacheHitUpdateLFU: the referenced way's use count goes up by one. */
  function LfuHitUpdate(ws: seq<Way>, k: nat): (r: seq<Way>)
    requires k < |ws|
    ensures |r| == |ws|
    ensures forall j :: 0 <= j < |ws| ==> SameLine(r[j], ws[j])
    ensures r[k].counter == ws[k].counter + 1
    ensures forall j :: 0 <= j < |ws| && j != k ==> r[j] == ws[j]
  {
    ws[k := ws[k].(counter := ws[k].counter + 1)]
  }

  /**
   * The LFU victim scan (strict `<` from way 0): the lowest-numbered way
   * among those with the smallest use count.
   */
  function MinCounterWay(ws: seq<Way>): (k: nat)
    requires |ws| > 0
    ensures k < |ws|
    ensures forall j :: 0 <= j < |ws| ==> ws[k].counter <= ws[j].counter
    ensures forall j :: 0 <= j < k ==> ws[j].counter > ws[k].counter
  {
    if |ws| == 1 then 0
    else
      var m := MinCounterWay(ws[..|ws| - 1]);
      if ws[|ws| - 1].counter < ws[m].counter then |ws| - 1 else m
  }

  /**
   * cacheFindReplacementUpdateCounterLFU with dynamic aging: the chosen way's
   * old count becomes the set's age baseline countSet, and the new block
   * starts one above it.
   */
  function LfuReplace(s: TagSet, overrideWay: nat, doOverride: bool): (r: (TagSet, nat))
    requires |s.ways| > 0
    requires doOverride ==> overrideWay < |s.ways|
    ensures var (s', k) := r;
      && k < |s.ways| && |s'.ways| == |s.ways|
      && (doOverride ==> k == overrideWay)
      && (!doOverride ==> k == MinCounterWay(s.ways))
      && s'.countSet == s.ways[k].counter
      && s'.ways[k].counter == s'.countSet + 1
      && SameLine(s'.ways[k], s.ways[k])
      && forall j :: 0 <= j < |s.ways| && j != k ==> s'.ways[j] == s.ways[j]
  {
    var k := if doOverride then overrideWay else MinCounterWay(s.ways);
    var base := s.ways[k].counter;
    (TagSet(s.ways[k := s.ways[k].(counter := base + 1)], base), k)
  }

  // ---------------------------------------------------------------------
  // LRU ranks as a recency list
  // ---------------------------------------------------------------------

  /** order lists every way position exactly once, most recently used first. */
  ghost predicate IsOrderOf(order: seq<nat>, n: nat) {
    && |order| == n
    && (forall p :: 0 <= p < n ==> order[p] < n)
    && (forall p, q :: 0 <= p < q < n ==> order[p] != order[q])
    && (forall j :: 0 <= j < n ==> j in order)
  }

  /** Each way's LRU counter is its position in the recency list. */
  ghost predicate RanksFollow(ws: seq<Way>, order: seq<nat>) {
    && IsOrderOf(order, |ws|)
    && forall p :: 0 <= p < |ws| ==> ws[order[p]].counter == p
  }

  /** The recency list after the way at position p is used: it moves to the front. */
  function MoveToFront(order: seq<nat>, p: nat): (r: seq<nat>)
    requires p < |order|
    ensures |r| == |order| && r[0] == order[p]
    ensures forall q :: 1 <= q <= p ==> r[q] == order[q - 1]
    ensures forall q :: p < q < |order| ==> r[q] == order[q]
  {
    [order[p]] + order[..p] + order[p + 1..]
  }

  lemma MoveToFrontIsOrder(order: seq<nat>, n: nat, p: nat)
    requires IsOrderOf(order, n) && p < n
    ensures IsOrderOf(MoveToFront(order, p), n)
  {
    var r := MoveToFront(order, p);
    forall j | 0 <= j < n ensures j in r {
      assert j in order;
      var q :| 0 <= q < n && order[q] == j;
      if q == p {
        assert r[0] == j;
      } else if q < p {
        assert r[q + 1] == j;
      } else {
        assert r[q] == j;
      }
    }
  }

  /** The counters of the first m ways, as a set. */
  function Counters(ws: seq<Way>, m: nat): (r: set<nat>)
    requires m <= |ws|
    ensures forall j :: 0 <= j < m ==> ws[j].counter in r
    ensures forall x :: x in r ==> exists j :: 0 <= j < m && ws[j].counter == x
  {
    if m == 0 then {} else Counters(ws, m - 1) + {ws[m - 1].counter}
  }

  /** The naturals below n, as a set. */
  function Below(n: nat): (r: set<nat>)
    ensures forall x: nat :: x in r <==> x < n
    ensures |r| == n
  {
    if n == 0 then {} else Below(n - 1) + {n - 1}
  }

  lemma {:induction false} CountersSize(ws: seq<Way>, m: nat)
    requires RanksArePermutation(ws) && m <= |ws|
    ensures |Counters(ws, m)| == m
  {
    if m > 0 {
      CountersSize(ws, m - 1);
      var c := ws[m - 1].counter;
      forall j | 0 <= j < m - 1 ensures ws[j].counter != c {
        assert j != m - 1;
      }
      NotInCounters(ws, m - 1, c);
      assert Counters(ws, m) == Counters(ws, m - 1) + {c};
    }
  }

  lemma NotInCounters(ws: seq<Way>, m: nat, c: nat)
    requires m <= |ws|
    requires forall j :: 0 <= j < m ==> ws[j].counter != c
    ensures c !in Counters(ws, m)
  {
  }

  lemma SubsetSameSize(a: set<nat>, b: set<nat>)
    requires a <= b && |a| == |b|
    ensures a == b
  {
    assert b == a + (b - a);
    assert |b - a| == 0;
  }

  /** Pigeonhole: distinct counters below assoc take every value below assoc. */
  lemma WayWithRank(ws: seq<Way>, rank: nat) returns (j: nat)
    requires RanksArePermutation(ws) && rank < |ws|
    ensures j < |ws| && ws[j].counter == rank
  {
    var n := |ws|;
    CountersSize(ws, n);
    SubsetSameSize(Counters(ws, n), Below(n));
    assert rank in Counters(ws, n);
    j :| 0 <= j < n && ws[j].counter == rank;
  }

  /** Ranks that follow a recency list are a permutation. */
  lemma RanksFollowIsPermutation(ws: seq<Way>, order: seq<nat>)
    requires RanksFollow(ws, order)
    ensures RanksArePermutation(ws)
  {
    var n := |ws|;
    forall j | 0 <= j < n ensures ws[j].counter < n {
      assert j in order;
      var p :| 0 <= p < n && order[p] == j;
    }
    forall i, j | 0 <= i < n && 0 <= j < n && i != j ensures ws[i].counter != ws[j].counter {
      assert i in order && j in order;
      var p :| 0 <= p < n && order[p] == i;
      var q :| 0 <= q < n && order[q] == j;
    }
  }

  /** Every rank permutation is read off some recency list: the two views coincide. */
  lemma PermutationHasRecencyList(ws: seq<Way>) returns (order: seq<nat>)
    requires RanksArePermutation(ws)
    ensures RanksFollow(ws, order)
  {
    var n := |ws|;
    order := [];
    var p := 0;
    while p < n
      invariant 0 <= p <= n && |order| == p
      invariant forall q :: 0 <= q < p ==> order[q] < n && ws[order[q]].counter == q
    {
      var j := WayWithRank(ws, p);
      order := order + [j];
      p := p + 1;
    }
    forall j | 0 <= j < n ensures j in order {
      assert order[ws[j].counter] == j;
    }
  }

  /** An LRU hit moves the referenced way to the front of the recency list. */
  lemma LruHitMovesToFront(ws: seq<Way>, order: seq<nat>, k: nat)
    requires RanksFollow(ws, order) && k < |ws|
    ensures ws[k].counter < |ws| && order[ws[k].counter] == k
    ensures RanksFollow(LruHitUpdate(ws, k), MoveToFront(order, ws[k].counter))
  {
    var n := |ws|;
    assert k in order;
    var p :| 0 <= p < n && order[p] == k;
    MoveToFrontIsOrder(order, n, p);
  }

  /**
   * LRU eviction without a free way takes the least recently used way (the
   * last of the recency list) and makes it the most recent.
   */
  lemma LruEvictTakesLeastRecent(ws: seq<Way>, order: seq<nat>)
    requires RanksFollow(ws, order) && |ws| > 0
    ensures LruReplace(ws, 0, false).way == order[|ws| - 1]
    ensures RanksFollow(LruReplace(ws, 0, false).ways, MoveToFront(order, |ws| - 1))
  {
    var n := |ws|;
    RanksFollowIsPermutation(ws, order);
    var c := LruReplace(ws, 0, false);
    assert ws[order[n - 1]].counter == n - 1;
    assert ws[c.way].counter == n - 1;
    MoveToFrontIsOrder(order, n, n - 1);
  }

  /** Placing a line whose tag the set does not hold keeps valid tags unique. */
  lemma PlaceKeepsTagsUnique(ws: seq<Way>, k: nat, w: Way)
    requires UniqueValidTags(ws) && k < |ws| && FindHit(ws, w.tag) == |ws|
    ensures UniqueValidTags(ws[k := w])
  {
  }

  /** Two sets whose ways hold the same lines, whatever their counters. */
  predicate SameLines(ws: seq<Way>, ws': seq<Way>) {
    |ws'| == |ws| && forall j :: 0 <= j < |ws| ==> SameLine(ws'[j], ws[j])
  }

  /** Hit lookup, the free-way scan and tag uniqueness look only at the lines, never at the counters. */
  lemma {:induction false} SameLinesAgree(ws: seq<Way>, ws': seq<Way>, tag: nat)
    requires SameLines(ws, ws')
    ensures FindHit(ws', tag) == FindHit(ws, tag)
    ensures FirstInvalid(ws') == FirstInvalid(ws)
    ensures UniqueValidTags(ws') == UniqueValidTags(ws)
  {
    if |ws| > 0 {
      SameLinesAgree(ws[1..], ws'[1..], tag);
    }
  }
}
