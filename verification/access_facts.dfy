/**
 * Consequences of the access path that relate two accesses, or an access
 * and the levels below it.
 */
module AccessFacts {
  import opened Wrappers
  import opened Address
  import opened Replacement
  import opened CacheEngine

  /** A valid way holding the tag makes the hit scan succeed. */
  lemma FoundMeansHit(ws: seq<Way>, tag: nat, j: nat)
    requires j < |ws| && ws[j].valid && ws[j].tag == tag
    ensures FindHit(ws, tag) < |ws|
  {
  }

  /**
   * After an access that allocates (any read, or a write to a write-back
   * cache), reading the same address from the updated hierarchy hits: the
   * block is in the level, valid, under its tag. This holds for a level
   * without a victim cache, and for one with an aligned victim cache when
   * the addressed set has no free way: a victim hit swaps tags and dirty
   * bits but not valid bits, so the way it fills must already be valid.
   */
  lemma AllocatedBlockHits(h: Hierarchy, a: Word, dir: Dir)
    requires HierWF(h) && |h| > 0 && !h[0].main.cfg.isVictim
    requires dir == Read || h[0].main.cfg.writePolicy == WriteBackWriteAllocate
    requires h[0].victim.None? || (Coherent(h[0]) &&
      var f := Decode(h[0].main.cfg.layout, a);
      FirstInvalid(h[0].main.sets[f.index].ways) == h[0].main.cfg.assoc)
    ensures var r := Communicate(h, a, dir);
      r.comm.hit || Communicate(r.h, a, Read).comm.hit
    ensures Communicate(Communicate(h, a, dir).h, a, Read).comm.hit
  {
    var c := h[0].main;
    var f := Decode(c.cfg.layout, a);
    var r := Communicate(h, a, dir);
    assert Served(h, f, dir, true, r.comm.hit, r.comm.setIndex, r.h);
    var ws' := r.h[0].main.sets[f.index].ways;
    FoundMeansHit(ws', f.tag, r.comm.setIndex);
    var r2 := Communicate(r.h, a, Read);
    assert Served(r.h, f, Read, true, r2.comm.hit, r2.comm.setIndex, r2.h);
  }

  /**
   * A write miss in a write-through cache installs nothing and passes the
   * write on to the next level.
   */
  lemma WriteThroughMissForwards(h: Hierarchy, a: Word)
    requires HierWF(h) && |h| > 0 && !h[0].main.cfg.isVictim
    requires h[0].main.cfg.writePolicy == WriteThroughNoAllocate
    requires var f := Decode(h[0].main.cfg.layout, a);
      FindHit(h[0].main.sets[f.index].ways, f.tag) == h[0].main.cfg.assoc
    ensures var r := Communicate(h, a, Write);
      && !r.comm.hit
      && r.h[0].main.sets == h[0].main.sets
      && r.h[0].victim == h[0].victim
      && (TailWF(h); r.h[1..] == Communicate(h[1..], a, Write).h)
  {
    var h1 := Counting(h);
    var f := Decode(h[0].main.cfg.layout, a);
    TailWF(h);
    TailWF(h1);
    var o := WriteAround(h1, a, f);
    assert o.h == WithLower(h1, Communicate(h[1..], a, Write).h);
    assert Dispatch(h1, a, f, Write) == DoWrite(h1, a, f) == ReadWriteCommon(h1, a, f, Write, false) == o;
    assert Communicate(h, a, Write) == Account(h, a, Write, h1, o);
  }

  /**
   * A write hit in a write-through cache only updates the replacement
   * counters: the next level is not told. (The memory-traffic figure of
   * GetStats still counts the write.)
   */
  lemma WriteThroughHitStaysLocal(h: Hierarchy, a: Word)
    requires HierWF(h) && |h| > 0 && !h[0].main.cfg.isVictim
    requires h[0].main.cfg.writePolicy == WriteThroughNoAllocate
    requires var f := Decode(h[0].main.cfg.layout, a);
      FindHit(h[0].main.sets[f.index].ways, f.tag) < h[0].main.cfg.assoc
    ensures var r := Communicate(h, a, Write);
      && r.comm.hit
      && r.h[1..] == h[1..] && r.h[0].victim == h[0].victim
  {
    var h1 := Counting(h);
    var f := Decode(h[0].main.cfg.layout, a);
    var o := HitAccess(h1, f, Write, false);
    assert o.h[1..] == h1[1..] && o.h[0].victim == h1[0].victim;
    assert Dispatch(h1, a, f, Write) == DoWrite(h1, a, f) == ReadWriteCommon(h1, a, f, Write, false) == o;
    assert Communicate(h, a, Write) == Account(h, a, Write, h1, o);
  }
}
