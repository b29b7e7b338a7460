/**
 * Building caches and hierarchies: cacheInit (its integer parts),
 * cacheConnect and cacheAttachVictimCache.
 */
module CacheSetup {
  import opened Wrappers
  import opened Bits
  import opened Address
  import opened Replacement
  import opened CacheEngine

  /** All counters at zero, as calloc leaves them. */
  const NoStats: Stats := Stats(0, 0, 0, 0, 0, 0, 0)

  /** A set as cacheInit leaves it: every line invalid, clean, tag 0; LRU ranks 0..assoc-1, LFU counts 0. */
  predicate FreshSet(s: TagSet, assoc: nat, policy: Policy) {
    && s.countSet == 0
    && |s.ways| == assoc
    && forall j :: 0 <= j < assoc ==>
         s.ways[j] == Way(0, false, false, if policy == LRU then j else 0)
  }

  /**
   * The configuration cacheInit derives: nSets is the ceiling of
   * size / (assoc * blockSize), the offset and index widths are the ceiling
   * logarithms of blockSize and nSets, and the tag takes the remaining bits.
   */
  function InitConfig(size: int, assoc: nat, blockSize: nat, policy: Policy, wp: WritePolicy): (cfg: CacheConfig)
    requires size > 0 && assoc >= 1 && blockSize >= 1
    ensures cfg.size == size && cfg.assoc == assoc && cfg.blockSize == blockSize
    ensures cfg.repPolicy == policy && cfg.writePolicy == wp && !cfg.isVictim
    ensures cfg.nSets == CeilDiv(size, assoc * blockSize)
    ensures cfg.layout == MakeLayout(CeilLog2(blockSize), CeilLog2(cfg.nSets))
  {
    var nSets := CeilDiv(size, assoc * blockSize);
    CacheConfig(size, assoc, blockSize, nSets, policy, wp, MakeLayout(CeilLog2(blockSize), CeilLog2(nSets)), false)
  }

  /**
   * cacheInit: no cache (NULL) for a non-positive size; otherwise an empty
   * cache with zeroed counters and every set fresh.
   */
  function Init(size: int, assoc: nat, blockSize: nat, policy: Policy, wp: WritePolicy): (r: Option<Cache>)
    requires size > 0 ==> assoc >= 1 && blockSize >= 1
    ensures r.None? <==> size <= 0
    ensures r.Some? ==>
      && r.value.cfg == InitConfig(size, assoc, blockSize, policy, wp)
      && r.value.stats == NoStats
      && |r.value.sets| == r.value.cfg.nSets
      && forall i :: 0 <= i < |r.value.sets| ==> FreshSet(r.value.sets[i], assoc, policy)
  {
    if size <= 0 then None
    else
      var cfg := InitConfig(size, assoc, blockSize, policy, wp);
      Some(Cache(cfg, FreshSets(cfg.nSets, assoc, policy), NoStats))
  }

  /** The tag store cacheInit allocates: n fresh sets. */
  function FreshSets(n: nat, assoc: nat, policy: Policy): (ss: seq<TagSet>)
    ensures |ss| == n && forall i :: 0 <= i < n ==> FreshSet(ss[i], assoc, policy)
  {
    var blank := TagSet(InitialWays(assoc, policy), 0);
    assert FreshSet(blank, assoc, policy);
    seq(n, _ => blank)
  }

  /** A fresh set is well formed and holds no valid line, so its tags are unique. */
  lemma FreshSetWF(cfg: CacheConfig, s: TagSet)
    requires cfg.layout.Valid() && FreshSet(s, cfg.assoc, cfg.repPolicy)
    ensures SetWF(cfg, s, true)
    ensures FirstInvalid(s.ways) == 0 || cfg.assoc == 0
  {
    if cfg.repPolicy == LRU {
      assert s.ways == InitialWays(cfg.assoc, LRU);
    }
    assert UniqueValidTags(s.ways) by {
      assert forall j :: 0 <= j < |s.ways| ==> !s.ways[j].valid;
    }
  }

  /**
   * cacheInit yields a usable cache when the block size and the set count
   * are powers of two whose widths fit the address and the policy is LRU or
   * LFU; the offset field then spans exactly one block and the index field
   * exactly the sets.
   */
  lemma InitWF(size: int, assoc: nat, blockSize: nat, policy: Policy, wp: WritePolicy)
    requires size > 0 && assoc >= 1 && blockSize >= 1 && policy != LRFU
    requires IsPow2(blockSize) && IsPow2(CeilDiv(size, assoc * blockSize))
    requires CeilLog2(blockSize) + CeilLog2(CeilDiv(size, assoc * blockSize)) <= AddressSize
    ensures Init(size, assoc, blockSize, policy, wp).Some?
    ensures CacheWF(Init(size, assoc, blockSize, policy, wp).value, true)
  {
    InitConfigWF(size, assoc, blockSize, policy, wp);
    InitCacheWF(size, assoc, blockSize, policy, wp);
  }

  /** cacheInit's tag store is well formed under any usable configuration. */
  lemma InitCacheWF(size: int, assoc: nat, blockSize: nat, policy: Policy, wp: WritePolicy)
    requires size > 0 && assoc >= 1 && blockSize >= 1
    requires ConfigWF(InitConfig(size, assoc, blockSize, policy, wp))
    ensures CacheWF(Init(size, assoc, blockSize, policy, wp).value, true)
  {
    FreshCacheWF(Init(size, assoc, blockSize, policy, wp).value);
  }

  /** A cache of fresh sets under a usable configuration is well formed. */
  lemma FreshCacheWF(c: Cache)
    requires ConfigWF(c.cfg) && |c.sets| == c.cfg.nSets
    requires forall i :: 0 <= i < |c.sets| ==> FreshSet(c.sets[i], c.cfg.assoc, c.cfg.repPolicy)
    ensures CacheWF(c, true) && CacheWF(c, false)
  {
    forall i | 0 <= i < |c.sets| ensures SetWF(c.cfg, c.sets[i], true) && SetWF(c.cfg, c.sets[i], false) {
      FreshSetWF(c.cfg, c.sets[i]);
    }
  }

  lemma InitConfigWF(size: int, assoc: nat, blockSize: nat, policy: Policy, wp: WritePolicy)
    requires size > 0 && assoc >= 1 && blockSize >= 1 && policy != LRFU
    requires IsPow2(blockSize) && IsPow2(CeilDiv(size, assoc * blockSize))
    requires CeilLog2(blockSize) + CeilLog2(CeilDiv(size, assoc * blockSize)) <= AddressSize
    ensures var cfg := InitConfig(size, assoc, blockSize, policy, wp);
      ConfigWF(cfg) && Pow2(cfg.layout.boSize) == blockSize
  {
    var cfg := InitConfig(size, assoc, blockSize, policy, wp);
    CeilLog2OfPow2(blockSize);
    CeilLog2OfPow2(cfg.nSets);
  }

  /**
   * cacheConnect: the level goes in front of the lower hierarchy. Its
   * victim cache, if any, shares the same next level, which is what the
   * C code sets up by also linking victimP->nextLevel.
   */
  function Connect(upper: Level, lower: Hierarchy): (h: Hierarchy)
    ensures |h| == |lower| + 1 && h[0] == upper && h[1..] == lower
  {
    [upper] + lower
  }

  /** Connecting well-formed parts gives a well-formed hierarchy, and the victim's next level is the owner's. */
  lemma ConnectWF(upper: Level, lower: Hierarchy)
    requires LevelWF(upper) && HierWF(lower)
    ensures HierWF(Connect(upper, lower))
    ensures upper.victim.Some? ==> VictimView(Connect(upper, lower))[1..] == lower
  {
    var h := Connect(upper, lower);
    forall i | 0 <= i < |h| ensures LevelWF(h[i]) {
      if i > 0 {
        assert h[i] == lower[i - 1];
      }
    }
  }

  /**
   * cacheAttachVictimCache: for a positive size, a fully associative victim
   * cache of ceil(size / blockSize) ways, LRU and write-back/write-allocate,
   * replaces the level's victim; otherwise nothing changes.
   */
  function AttachVictim(l: Level, size: int, blockSize: nat): (r: Level)
    requires size > 0 ==> blockSize >= 1
    ensures size <= 0 ==> r == l
    ensures size > 0 ==> r.main == l.main && r.victim.Some?
    ensures size > 0 ==>
      var v := r.victim.value;
      && v.cfg.isVictim && v.cfg.repPolicy == LRU && v.cfg.writePolicy == WriteBackWriteAllocate
      && v.cfg.blockSize == blockSize && v.stats == NoStats
      && |v.sets| == v.cfg.nSets
      && forall i :: 0 <= i < |v.sets| ==> FreshSet(v.sets[i], v.cfg.assoc, LRU)
  {
    if size <= 0 then l
    else
      var assoc := CeilDiv(size, blockSize);
      CeilDivBounds(size, blockSize);
      var v := Init(size, assoc, blockSize, LRU, WriteBackWriteAllocate).value;
      Level(l.main, Some(v.(cfg := v.cfg.(isVictim := true))))
  }

  /** The victim's ways are the fewest blocks that cover its size. */
  lemma AttachVictimWays(l: Level, size: int, blockSize: nat)
    requires blockSize >= 1 && size > 0
    ensures var v := AttachVictim(l, size, blockSize).victim.value;
      v.cfg.assoc * blockSize >= size > (v.cfg.assoc - 1) * blockSize
  {
    var v := AttachVictim(l, size, blockSize).victim.value;
    assert v.cfg.assoc == CeilDiv(size, blockSize);
    CeilDivCovers(size, blockSize, v.cfg.assoc);
  }

  /** The victim cache has exactly one set: assoc blocks already cover its size. */
  lemma VictimHasOneSet(l: Level, size: int, blockSize: nat)
    requires blockSize >= 1 && size > 0
    ensures var v := AttachVictim(l, size, blockSize).victim.value;
      v.cfg.nSets == 1 && v.cfg.layout.indexSize == 0 && |v.sets| == 1
      && v.cfg.layout.boSize == CeilLog2(blockSize)
  {
    var v := AttachVictim(l, size, blockSize).victim.value;
    var assoc := CeilDiv(size, blockSize);
    assert v.cfg.assoc == assoc && v.cfg.nSets == CeilDiv(size, assoc * blockSize);
    CeilDivCovers(size, blockSize, assoc);
    CeilDivOne(size, assoc * blockSize);
  }

  /** The victim's blocks line up with the owner's exactly when both block offsets have the same width. */
  lemma AttachVictimCoherent(l: Level, size: int, blockSize: nat)
    requires size > 0 && blockSize >= 1
    ensures var r := AttachVictim(l, size, blockSize);
      Coherent(r) <==> CeilLog2(blockSize) == l.main.cfg.layout.boSize
  {
    VictimHasOneSet(l, size, blockSize);
  }

  /**
   * Attaching a victim to a level without one keeps it well formed when
   * the block size is a power of two that fits the address.
   */
  lemma AttachVictimWF(l: Level, size: int, blockSize: nat)
    requires LevelWF(l) && l.victim.None? && !l.main.cfg.isVictim
    requires size > 0 && blockSize >= 1 && IsPow2(blockSize) && CeilLog2(blockSize) <= AddressSize
    ensures LevelWF(AttachVictim(l, size, blockSize))
  {
    var r := AttachVictim(l, size, blockSize);
    VictimCacheWF(l, size, blockSize);
    assert KeepsUnique(l);
    ForgetUnique(l.main, true);
  }

  /** The attached victim cache itself is well formed. */
  lemma VictimCacheWF(l: Level, size: int, blockSize: nat)
    requires size > 0 && blockSize >= 1 && IsPow2(blockSize) && CeilLog2(blockSize) <= AddressSize
    ensures CacheWF(AttachVictim(l, size, blockSize).victim.value, false)
  {
    VictimConfigWF(l, size, blockSize);
    FreshCacheWF(AttachVictim(l, size, blockSize).victim.value);
  }

  /** The victim cache's geometry is well formed: one set, an index field of width zero. */
  lemma VictimConfigWF(l: Level, size: int, blockSize: nat)
    requires size > 0 && blockSize >= 1 && CeilLog2(blockSize) <= AddressSize
    ensures ConfigWF(AttachVictim(l, size, blockSize).victim.value.cfg)
  {
    var v := AttachVictim(l, size, blockSize).victim.value;
    VictimHasOneSet(l, size, blockSize);
    CeilDivBounds(size, blockSize);
    assert v.cfg.layout.Valid();
  }
}
