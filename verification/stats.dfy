/**
 * cacheGetStats, integer part: the counts a cache reports, and how they
 * move with each access.
 */
module Accounting {
  import opened Wrappers
  import opened Address
  import opened Replacement
  import opened CacheEngine

  /** The integer outputs of cacheGetStats (missRate is left out). */
  datatype Report = Report(
    readCount: nat,
    readMisses: nat,
    writeCount: nat,
    writeMisses: nat,
    swaps: nat,
    writeBacks: nat,
    memoryTraffic: nat)

  /**
   * cacheGetStats. The NULL cache reports nothing. Memory traffic counts the
   * blocks moved to or from the next level: for write-back caches one per
   * miss plus one per write-back, for write-through caches one per read
   * miss and one per write; the write-backs of an attached victim cache are
   * added.
   */
  function GetStats(h: Hierarchy): (r: Option<Report>)
    ensures r.None? <==> |h| == 0
    ensures r.Some? ==>
      var s := h[0].main.stats;
      && r.value.readMisses <= r.value.readCount
      && r.value.writeMisses <= r.value.writeCount
      && r.value.readCount + r.value.writeCount == s.readHits + s.readMisses + s.writeHits + s.writeMisses
      && r.value.readMisses + r.value.writeMisses <= r.value.memoryTraffic
      && r.value.swaps == s.swaps && r.value.writeBacks == s.writeBacks
  {
    if |h| == 0 then None
    else
      var c := h[0].main;
      var s := c.stats;
      var readCount := s.readHits + s.readMisses;
      var writeCount := s.writeHits + s.writeMisses;
      var own := if c.cfg.writePolicy == WriteBackWriteAllocate then s.readMisses + s.writeMisses + s.writeBacks
                 else s.readMisses + writeCount;
      var traffic := own + (if h[0].victim.Some? then h[0].victim.value.stats.writeBacks else 0);
      Some(Report(readCount, s.readMisses, writeCount, s.writeMisses, s.swaps, s.writeBacks, traffic))
  }

  /** Every access so far counted as exactly one hit or one miss. */
  predicate Balanced(s: Stats) {
    s.readHits + s.readMisses + s.writeHits + s.writeMisses == s.numAccess
  }

  /**
   * Starting from balanced counters (a fresh cache has all zero), every
   * access keeps them balanced, so the reported read and write counts add
   * up to the number of accesses.
   */
  lemma AccessKeepsBalanced(h: Hierarchy, a: Word, dir: Dir)
    requires HierWF(h) && |h| > 0 && Balanced(h[0].main.stats)
    ensures var h' := Communicate(h, a, dir).h;
      && Balanced(h'[0].main.stats)
      && GetStats(h').value.readCount + GetStats(h').value.writeCount == h'[0].main.stats.numAccess
  {
    var r := Communicate(h, a, dir);
    assert Counted(h[0].main.stats, r.h[0].main.stats, dir, r.comm.hit);
  }

  /**
   * What one access adds to a level's memory traffic, for a level without a
   * victim cache. Write-back: nothing on a hit; on a miss one block fetched,
   * plus one written back when the replaced line was valid and dirty.
   * Write-through: one for every write and for every read miss.
   */
  lemma TrafficPerAccess(h: Hierarchy, a: Word, dir: Dir)
    requires HierWF(h) && |h| > 0 && h[0].victim.None? && !h[0].main.cfg.isVictim
    ensures var c := h[0].main;
      var r := Communicate(h, a, dir);
      var f := Decode(c.cfg.layout, a);
      var t, t' := GetStats(h).value.memoryTraffic, GetStats(r.h).value.memoryTraffic;
      && (c.cfg.writePolicy == WriteBackWriteAllocate && r.comm.hit ==> t' == t)
      && (c.cfg.writePolicy == WriteBackWriteAllocate && !r.comm.hit ==>
            r.comm.setIndex < c.cfg.assoc
            && var e := c.sets[f.index].ways[r.comm.setIndex];
               t' == t + 1 + (if e.valid && e.dirty then 1 else 0))
      && (c.cfg.writePolicy == WriteThroughNoAllocate ==>
            t' == t + (if dir == Write || !r.comm.hit then 1 else 0))
  {
    var c := h[0].main;
    var r := Communicate(h, a, dir);
    var f := Decode(c.cfg.layout, a);
    var allocate := dir == Read || c.cfg.writePolicy == WriteBackWriteAllocate;
    assert Served(h, f, dir, allocate, r.comm.hit, r.comm.setIndex, r.h);
    assert Counted(c.stats, r.h[0].main.stats, dir, r.comm.hit);
    assert r.h[0].victim.None?;
  }
}
