/**
 * The cache engine: a set-associative cache with LRU or LFU replacement,
 * write-back/write-allocate or write-through/no-allocate, an optional fully
 * associative victim cache, and a next level that is another cache or
 * memory.
 *
 * The C code links caches through `nextLevel` and `victimP` pointers. Here a
 * hierarchy is the sequence of its levels, nearest to the processor first;
 * the empty sequence is the NULL cache (memory). A victim cache shares its
 * owner's next level, which is the rest of the sequence, so it is accessed
 * through `VictimView`: the victim as the head level of the same tail.
 *
 * Every operation is a pure function from a hierarchy to the updated
 * hierarchy; the recursion follows the C call graph
 * (Communicate -> DoRead/DoWrite -> ReadWriteCommon -> Allocate -> Evict ->
 * Finish -> WriteBackData -> Communicate on the next level).
 */
module CacheEngine {
  import opened Wrappers
  import opened Bits
  import opened Address
  import opened Replacement

  /** Command direction (cmdDirT). */
  datatype Dir = Read | Write

  /** Write policies (writePolicyT). */
  datatype WritePolicy = WriteBackWriteAllocate | WriteThroughNoAllocate

  /** The counters a cache keeps. */
  datatype Stats = Stats(
    readHits: nat,
    readMisses: nat,
    writeHits: nat,
    writeMisses: nat,
    writeBacks: nat,
    swaps: nat,
    numAccess: nat)

  /** The fixed geometry and policies of a cache, as cacheInit computes them. */
  datatype CacheConfig = CacheConfig(
    size: int,
    assoc: nat,
    blockSize: nat,
    nSets: nat,
    repPolicy: Policy,
    writePolicy: WritePolicy,
    layout: Layout,
    isVictim: bool)

  /** One cache (cacheT): configuration, tag store and counters. */
  datatype Cache = Cache(cfg: CacheConfig, sets: seq<TagSet>, stats: Stats)

  /** One level of the hierarchy: a cache and the victim cache attached to it, if any. */
  datatype Level = Level(main: Cache, victim: Option<Cache>)

  /** A cache hierarchy, nearest level first; [] is memory. */
  type Hierarchy = seq<Level>

  /** The answer of cacheCommunicate (cacheCommT). */
  datatype Comm = Comm(hit: bool, index: nat, setIndex: nat)

  /** An answer together with the updated hierarchy. */
  datatype Access = Access(comm: Comm, h: Hierarchy)

  /** The hit flag and way the internal steps report, with the updated hierarchy. */
  datatype Outcome = Outcome(hit: bool, way: nat, h: Hierarchy)

  // ---------------------------------------------------------------------
  // Well-formedness
  // ---------------------------------------------------------------------

  /**
   * A usable configuration. The set count must be a power of two: the index
   * field then takes exactly nSets values, which is what the ASSERT in
   * cacheDoReadWriteCommon checks. LRFU is outside the model.
   */
  predicate ConfigWF(cfg: CacheConfig) {
    && cfg.layout.Valid()
    && cfg.assoc >= 1
    && cfg.nSets == Pow2(cfg.layout.indexSize)
    && cfg.repPolicy != LRFU
    && (cfg.isVictim ==> cfg.repPolicy == LRU && cfg.writePolicy == WriteBackWriteAllocate)
  }

  /** A set has assoc ways, tags that fit the tag field, LRU ranks that are a permutation. */
  predicate SetWF(cfg: CacheConfig, s: TagSet, unique: bool)
    requires cfg.layout.Valid()
  {
    && |s.ways| == cfg.assoc
    && (forall j :: 0 <= j < |s.ways| ==> s.ways[j].tag < Pow2(cfg.layout.tagSize))
    && (cfg.repPolicy == LRU ==> RanksArePermutation(s.ways))
    && (unique ==> UniqueValidTags(s.ways))
  }

  predicate CacheWF(c: Cache, unique: bool) {
    && ConfigWF(c.cfg)
    && |c.sets| == c.cfg.nSets
    && forall i :: 0 <= i < |c.sets| ==> SetWF(c.cfg, c.sets[i], unique)
  }

  /**
   * A victim cache whose blocks are the owner's blocks: same offset width and a
   * single set, so a victim tag is a whole block number.
   */
  predicate Compatible(owner: CacheConfig, v: CacheConfig) {
    v.layout.indexSize == 0 && v.layout.boSize == owner.layout.boSize
  }

  /** No victim cache, or one whose blocks line up with the owner's. */
  predicate Coherent(l: Level) {
    l.victim.None? || Compatible(l.main.cfg, l.victim.value.cfg)
  }

  /** Whether the level's cache holds every block at most once in a set. */
  predicate KeepsUnique(l: Level) {
    !l.main.cfg.isVictim && Coherent(l)
  }

  predicate LevelWF(l: Level) {
    && CacheWF(l.main, KeepsUnique(l))
    && (l.victim.Some? ==>
          && !l.main.cfg.isVictim
          && l.victim.value.cfg.isVictim
          && CacheWF(l.victim.value, false))
  }

  predicate HierWF(h: Hierarchy) {
    forall i :: 0 <= i < |h| ==> LevelWF(h[i])
  }

  /** Same levels with the same configurations and victim caches: only contents and counters differ. */
  predicate SameShape(h: Hierarchy, h': Hierarchy) {
    && |h'| == |h|
    && forall i :: 0 <= i < |h| ==>
         && h'[i].main.cfg == h[i].main.cfg
         && h'[i].victim.Some? == h[i].victim.Some?
         && (h[i].victim.Some? ==> h'[i].victim.value.cfg == h[i].victim.value.cfg)
  }

  /** What every operation on a hierarchy keeps. */
  predicate Preserves(h: Hierarchy, h': Hierarchy) {
    HierWF(h') && SameShape(h, h')
  }

  /** 1 when the head level has a victim cache: the victim is reached before the levels below. */
  function VictimRank(h: Hierarchy): nat {
    if |h| > 0 && h[0].victim.Some? then 1 else 0
  }

  /** The hit and miss counters and the access count. */
  predicate SameCounts(s: Stats, s': Stats) {
    && s'.readHits == s.readHits && s'.readMisses == s.readMisses
    && s'.writeHits == s.writeHits && s'.writeMisses == s.writeMisses
    && s'.numAccess == s.numAccess
  }

  /** Every set but set i is untouched. */
  predicate OtherSetsSame(c: Cache, c': Cache, i: nat) {
    |c'.sets| == |c.sets| && forall j :: 0 <= j < |c.sets| && j != i ==> c'.sets[j] == c.sets[j]
  }

  // ---------------------------------------------------------------------
  // Structural helpers
  // ---------------------------------------------------------------------

  lemma TailWF(h: Hierarchy)
    requires HierWF(h) && |h| > 0
    ensures HierWF(h[1..])
  {
  }

  /** The level with its cache replaced by c (same configuration). */
  function WithMain(h: Hierarchy, c: Cache): (r: Hierarchy)
    requires HierWF(h) && |h| > 0
    requires c.cfg == h[0].main.cfg && CacheWF(c, KeepsUnique(h[0]))
    ensures Preserves(h, r) && VictimRank(r) == VictimRank(h)
    ensures r[0] == Level(c, h[0].victim) && r[1..] == h[1..]
  {
    h[0 := Level(c, h[0].victim)]
  }

  /** The head level replaced by one of the same shape. */
  function WithHead(h: Hierarchy, l: Level): (r: Hierarchy)
    requires HierWF(h) && |h| > 0 && LevelWF(l)
    requires l.main.cfg == h[0].main.cfg && l.victim.Some? == h[0].victim.Some?
    requires l.victim.Some? ==> l.victim.value.cfg == h[0].victim.value.cfg
    ensures Preserves(h, r) && r[0] == l && r[1..] == h[1..]
  {
    h[0 := l]
  }

  /** The hierarchy with the levels below the head replaced. */
  function WithLower(h: Hierarchy, lower: Hierarchy): (r: Hierarchy)
    requires HierWF(h) && |h| > 0
    requires Preserves(h[1..], lower)
    ensures Preserves(h, r) && VictimRank(r) == VictimRank(h)
    ensures r[0] == h[0] && r[1..] == lower
  {
    [h[0]] + lower
  }

  /** The victim cache seen as a cache of its own, in front of its owner's next level. */
  function VictimView(h: Hierarchy): (r: Hierarchy)
    requires HierWF(h) && |h| > 0 && h[0].victim.Some?
    ensures HierWF(r) && |r| == |h| && VictimRank(r) == 0
    ensures r[0] == Level(h[0].victim.value, None) && r[1..] == h[1..]
  {
    [Level(h[0].victim.value, None)] + h[1..]
  }

  /** Puts the victim cache and the levels below back after an access through VictimView. */
  function FromVictimView(h: Hierarchy, vh: Hierarchy): (r: Hierarchy)
    requires HierWF(h) && |h| > 0 && h[0].victim.Some?
    requires Preserves(VictimView(h), vh)
    ensures Preserves(h, r) && VictimRank(r) == 1
    ensures r[0] == Level(h[0].main, Some(vh[0].main)) && r[1..] == vh[1..]
  {
    [Level(h[0].main, Some(vh[0].main))] + vh[1..]
  }

  /** The cache with set i replaced. */
  function UpdateSet(c: Cache, i: nat, s: TagSet): (r: Cache)
    requires i < |c.sets|
    ensures r.cfg == c.cfg && r.stats == c.stats && |r.sets| == |c.sets| && r.sets[i] == s
    ensures OtherSetsSame(c, r, i)
  {
    c.(sets := c.sets[i := s])
  }

  /** A cache well formed with unique tags is well formed without asking for them. */
  lemma ForgetUnique(c: Cache, unique: bool)
    requires CacheWF(c, unique)
    ensures CacheWF(c, false)
  {
    forall i | 0 <= i < |c.sets| ensures SetWF(c.cfg, c.sets[i], false) {
      assert SetWF(c.cfg, c.sets[i], unique);
    }
  }

  lemma UpdateSetWF(c: Cache, i: nat, s: TagSet, unique: bool)
    requires CacheWF(c, unique) && i < |c.sets| && SetWF(c.cfg, s, unique)
    ensures CacheWF(UpdateSet(c, i, s), unique)
  {
  }

  /** A set whose lines are unchanged stays well formed if its ranks are still a permutation. */
  lemma SameLinesSetWF(cfg: CacheConfig, s: TagSet, s': TagSet, unique: bool)
    requires cfg.layout.Valid() && SetWF(cfg, s, unique) && SameLines(s.ways, s'.ways)
    requires cfg.repPolicy == LRU ==> RanksArePermutation(s'.ways)
    ensures SetWF(cfg, s', unique)
  {
    SameLinesAgree(s.ways, s'.ways, 0);
  }

  /** The dirty bit of one line, as DoWrite and the victim write path set it. */
  function SetDirty(c: Cache, i: nat, k: nat, d: bool): (r: Cache)
    requires i < |c.sets| && k < |c.sets[i].ways|
    ensures r.cfg == c.cfg && r.stats == c.stats && OtherSetsSame(c, r, i)
    ensures |r.sets[i].ways| == |c.sets[i].ways| && r.sets[i].countSet == c.sets[i].countSet
    ensures r.sets[i].ways[k] == c.sets[i].ways[k].(dirty := d)
    ensures forall j :: 0 <= j < |c.sets[i].ways| && j != k ==> r.sets[i].ways[j] == c.sets[i].ways[j]
    ensures forall u: bool :: CacheWF(c, u) ==> CacheWF(r, u)
  {
    var s := c.sets[i];
    var s' := s.(ways := s.ways[k := s.ways[k].(dirty := d)]);
    forall u: bool | CacheWF(c, u) ensures CacheWF(UpdateSet(c, i, s'), u) {
      assert SameLines(s.ways, s'.ways) ==> true;
      if c.cfg.repPolicy == LRU {
        assert forall j :: 0 <= j < |s.ways| ==> s'.ways[j].counter == s.ways[j].counter;
      }
      assert UniqueValidTags(s.ways) ==> UniqueValidTags(s'.ways);
      UpdateSetWF(c, i, s', u);
    }
    UpdateSet(c, i, s')
  }

  // ---------------------------------------------------------------------
  // Replacement dispatch
  // ---------------------------------------------------------------------

  /** cacheHitUpdateLRU / cacheHitUpdateLFU on the set that hit. */
  function HitUpdate(cfg: CacheConfig, s: TagSet, k: nat): (r: TagSet)
    requires cfg.repPolicy != LRFU && k < |s.ways|
    ensures SameLines(s.ways, r.ways) && r.countSet == s.countSet
    ensures cfg.repPolicy == LRU ==>
              r.ways[k].counter == 0 && (RanksArePermutation(s.ways) ==> RanksArePermutation(r.ways))
    ensures cfg.repPolicy == LFU ==> r.ways[k].counter == s.ways[k].counter + 1
  {
    if cfg.repPolicy == LRU then s.(ways := LruHitUpdate(s.ways, k))
    else s.(ways := LfuHitUpdate(s.ways, k))
  }

  /**
   * The replacement dispatch of cacheDoReadWriteCommon: the free way when
   * there is one, otherwise the policy's victim; the policy's counters are
   * updated either way.
   */
  function Replace(cfg: CacheConfig, s: TagSet, free: nat): (r: (TagSet, nat))
    requires cfg.repPolicy != LRFU && |s.ways| > 0 && free <= |s.ways|
    ensures SameLines(s.ways, r.0.ways) && r.1 < |s.ways|
    ensures free < |s.ways| ==> r.1 == free
    ensures cfg.repPolicy == LRU && RanksArePermutation(s.ways) ==>
              && RanksArePermutation(r.0.ways)
              && r.0.ways[r.1].counter == 0
              && (free == |s.ways| ==> s.ways[r.1].counter == |s.ways| - 1)
    ensures cfg.repPolicy == LFU && free == |s.ways| ==> r.1 == MinCounterWay(s.ways)
  {
    var success := free < |s.ways|;
    if cfg.repPolicy == LRU then
      var c := LruReplace(s.ways, free, success);
      (s.(ways := c.ways), c.way)
    else
      var (s', k) := LfuReplace(s, free, success);
      assert SameLines(s.ways, s'.ways) by {
        forall j | 0 <= j < |s.ways| ensures SameLine(s'.ways[j], s.ways[j]) {
        }
      }
      (s', k)
  }

  // ---------------------------------------------------------------------
  // Address arithmetic between a cache and its victim
  // ---------------------------------------------------------------------

  /** A block number times the block size, divided by the block size, is the block number. */
  lemma BlockAlign(q: nat, p: nat)
    requires p > 0
    ensures (q * p) / p == q && (q * p) % p == 0
  {
    DivModUnique(q * p, p, q, 0);
  }

  /**
   * The block a compatible victim cache holds under tag vtag, re-decoded with
   * the owner's layout, is the owner's block of any address with that victim
   * tag.
   */
  lemma VictimBlockDecodes(owner: Layout, v: Layout, a: Word)
    requires owner.Valid() && v.Valid()
    requires v.indexSize == 0 && v.boSize == owner.boSize
    ensures var b := Decode(owner, Encode(v, Decode(v, a).tag, 0, 0));
      b.tag == Decode(owner, a).tag && b.index == Decode(owner, a).index && b.offset == 0
  {
    var p1, pi := Pow2(owner.boSize), Pow2(owner.indexSize);
    var vt := Decode(v, a).tag;
    assert vt == a / p1;
    ModSmall(vt, Pow2(v.tagSize));
    var x := Encode(v, vt, 0, 0);
    assert x == vt * p1;
    BlockAlign(vt, p1);
    Pow2Add(owner.boSize, owner.indexSize);
    DivDiv(x, p1, pi);
    DivDiv(a, p1, pi);
  }

  // ---------------------------------------------------------------------
  // Victim swap
  // ---------------------------------------------------------------------

  /**
   * cacheVictimSwap: the line of the owner and the line of the victim
   * exchange their blocks (each tag is re-derived through an address under
   * the other cache's layout) and dirty bits; valid bits stay where they are.
   * The victim line counts as used and both caches count a swap.
   */
  function VictimSwap(c: Cache, v: Cache, index: nat, way: nat, vIndex: nat, vWay: nat): (r: (Cache, Cache))
    requires CacheWF(c, false) && CacheWF(v, false) && v.cfg.repPolicy == LRU
    requires index < |c.sets| && way < c.cfg.assoc && vIndex < |v.sets| && vWay < v.cfg.assoc
  {
    var cl, vl := c.sets[index].ways[way], v.sets[vIndex].ways[vWay];
    (SwapOwner(c, index, way, Rebase(v.cfg.layout, c.cfg.layout, vl.tag, vIndex), vl.dirty),
     SwapVictim(v, vIndex, vWay, Rebase(c.cfg.layout, v.cfg.layout, cl.tag, index), cl.dirty))
  }

  /**
   * The tag a block has under layout to, given its tag and set index under
   * layout from: the block's address is rebuilt with a zero offset and decoded.
   */
  function Rebase(from: Layout, to: Layout, tag: nat, index: nat): (t: nat)
    requires from.Valid() && to.Valid()
    ensures t < Pow2(to.tagSize)
  {
    Decode(to, Encode(from, tag, index, 0)).tag
  }

  /** The owner's half of cacheVictimSwap: the way takes the victim line's block and dirty bit. */
  function SwapOwner(c: Cache, index: nat, way: nat, tag: nat, dirty: bool): (c': Cache)
    requires CacheWF(c, false) && index < |c.sets| && way < c.cfg.assoc && tag < Pow2(c.cfg.layout.tagSize)
    ensures c'.cfg == c.cfg && CacheWF(c', false) && OtherSetsSame(c, c', index)
    ensures c'.stats == c.stats.(swaps := c.stats.swaps + 1)
    ensures c'.sets[index].ways == c.sets[index].ways[way := c.sets[index].ways[way].(tag := tag, dirty := dirty)]
  {
    var s := c.sets[index];
    var cs := s.(ways := s.ways[way := s.ways[way].(tag := tag, dirty := dirty)]);
    UpdateSetWF(c, index, cs, false);
    UpdateSet(c, index, cs).(stats := c.stats.(swaps := c.stats.swaps + 1))
  }

  /**
   * The victim's half of cacheVictimSwap: its line takes the owner way's
   * block and dirty bit, keeps its valid bit, and becomes the most recently
   * used.
   */
  function SwapVictim(v: Cache, vIndex: nat, vWay: nat, tag: nat, dirty: bool): (v': Cache)
    requires CacheWF(v, false) && v.cfg.repPolicy == LRU && vIndex < |v.sets| && vWay < v.cfg.assoc
    requires tag < Pow2(v.cfg.layout.tagSize)
    ensures v'.cfg == v.cfg && CacheWF(v', false) && OtherSetsSame(v, v', vIndex)
    ensures v'.stats == v.stats.(swaps := v.stats.swaps + 1)
    ensures var vl, vl' := v.sets[vIndex].ways[vWay], v'.sets[vIndex].ways[vWay];
      vl'.tag == tag && vl'.dirty == dirty && vl'.valid == vl.valid && vl'.counter == 0
  {
    var vl := v.sets[vIndex].ways[vWay];
    var vs0 := v.sets[vIndex].(ways := v.sets[vIndex].ways[vWay := vl.(tag := tag, dirty := dirty)]);
    var vs := vs0.(ways := LruHitUpdate(vs0.ways, vWay));
    assert RanksArePermutation(vs0.ways) by {
      assert forall j :: 0 <= j < |vs0.ways| ==> vs0.ways[j].counter == v.sets[vIndex].ways[j].counter;
    }
    UpdateSetWF(v, vIndex, vs, false);
    UpdateSet(v, vIndex, vs).(stats := v.stats.(swaps := v.stats.swaps + 1))
  }

  // ---------------------------------------------------------------------
  // The access path
  // ---------------------------------------------------------------------

  /** The four hit/miss counters after one access: exactly the one for the direction and outcome moves. */
  function CountAccess(s: Stats, dir: Dir, hit: bool): (r: Stats)
    ensures r.numAccess == s.numAccess && r.writeBacks == s.writeBacks && r.swaps == s.swaps
    ensures r.readHits + r.readMisses + r.writeHits + r.writeMisses
            == s.readHits + s.readMisses + s.writeHits + s.writeMisses + 1
    ensures dir == Read ==> r.writeHits == s.writeHits && r.writeMisses == s.writeMisses
    ensures dir == Write ==> r.readHits == s.readHits && r.readMisses == s.readMisses
    ensures hit ==> r.readMisses == s.readMisses && r.writeMisses == s.writeMisses
    ensures !hit ==> r.readHits == s.readHits && r.writeHits == s.writeHits
  {
    match dir
    case Read =>
      s.(readHits := s.readHits + (if hit then 1 else 0), readMisses := s.readMisses + (if hit then 0 else 1))
    case Write =>
      s.(writeHits := s.writeHits + (if hit then 1 else 0), writeMisses := s.writeMisses + (if hit then 0 else 1))
  }

  /**
   * cacheCommunicate: decode the address, count the access, read or write,
   * count the hit or miss. The NULL cache (memory) misses and changes nothing.
   */
  function Communicate(h: Hierarchy, a: Word, dir: Dir): (r: Access)
    requires HierWF(h)
    decreases |h|, VictimRank(h), 8
    ensures Preserves(h, r.h)
    ensures |h| == 0 ==> r == Access(Comm(false, 0, 0), h)
    ensures |h| > 0 ==> Accessed(h, a, dir, r)
  {
    if |h| == 0 then Access(Comm(false, 0, 0), h)
    else
      var h1 := Counting(h);
      Account(h, a, dir, h1, Dispatch(h1, a, Decode(h[0].main.cfg.layout, a), dir))
  }

  /** Whether the head level's victim cache holds the block of address a. */
  predicate VictimHolds(h: Hierarchy, a: Word)
    requires HierWF(h) && |h| > 0 && h[0].victim.Some?
  {
    var v := h[0].victim.value;
    var vf := Decode(v.cfg.layout, a);
    FindHit(v.sets[vf.index].ways, vf.tag) < v.cfg.assoc
  }

  /**
   * The victim path's answer: a miss that allocates in a level with a victim
   * cache is a hit exactly when the victim holds the block.
   */
  predicate VictimAnswered(h: Hierarchy, a: Word, dir: Dir, allocate: bool, hit: bool)
    requires HierWF(h) && |h| > 0
  {
    var c := h[0].main;
    var f := Decode(c.cfg.layout, a);
    var allocating := (dir == Read && !c.cfg.isVictim) || (dir == Write && allocate);
    var miss := FindHit(c.sets[f.index].ways, f.tag) == c.cfg.assoc;
    allocating && h[0].victim.Some? && miss ==> (hit <==> VictimHolds(h, a))
  }

  /**
   * What one access through the head level reports and leaves: the set
   * index of the address, the counters moved as Counted says, the level
   * served as Served says, a victim hit exactly when the victim holds the
   * block, and after a write-back write the answering way dirty.
   */
  predicate Accessed(h: Hierarchy, a: Word, dir: Dir, r: Access)
    requires HierWF(h) && |h| > 0 && Preserves(h, r.h)
  {
    var c, c' := h[0].main, r.h[0].main;
    var f := Decode(c.cfg.layout, a);
    && r.comm.index == f.index
    && Counted(c.stats, c'.stats, dir, r.comm.hit)
    && Served(h, f, dir, dir == Read || c.cfg.writePolicy == WriteBackWriteAllocate,
              r.comm.hit, r.comm.setIndex, r.h)
    && VictimAnswered(h, a, dir, dir == Read || c.cfg.writePolicy == WriteBackWriteAllocate, r.comm.hit)
    && (dir == Write && c.cfg.writePolicy == WriteBackWriteAllocate ==>
          r.comm.setIndex < c.cfg.assoc && c'.sets[f.index].ways[r.comm.setIndex].dirty)
  }

  /** The hierarchy with the head cache's access count bumped, as cacheCommunicate does first. */
  function Counting(h: Hierarchy): (h1: Hierarchy)
    requires HierWF(h) && |h| > 0
    ensures Preserves(h, h1) && h1[1..] == h[1..] && h1[0].victim == h[0].victim
    ensures h1[0].main.sets == h[0].main.sets && h1[0].main.cfg == h[0].main.cfg
    ensures h1[0].main.stats == h[0].main.stats.(numAccess := h[0].main.stats.numAccess + 1)
  {
    var c := h[0].main;
    WithMain(h, c.(stats := c.stats.(numAccess := c.stats.numAccess + 1)))
  }

  /**
   * The end of cacheCommunicate: after the read or write path o on the
   * counted hierarchy h1, count the hit or miss and answer.
   */
  function Account(h: Hierarchy, a: Word, dir: Dir, h1: Hierarchy, o: Outcome): (r: Access)
    requires HierWF(h) && |h| > 0 && h1 == Counting(h)
    requires Preserves(h1, o.h) && Dispatched(h1, Decode(h[0].main.cfg.layout, a), dir, o)
    requires VictimAnswered(h1, a, dir, dir == Read || h[0].main.cfg.writePolicy == WriteBackWriteAllocate, o.hit)
    ensures Preserves(h, r.h) && Accessed(h, a, dir, r)
  {
    var f := Decode(h[0].main.cfg.layout, a);
    var c2 := o.h[0].main;
    var h2 := WithMain(o.h, c2.(stats := CountAccess(c2.stats, dir, o.hit)));
    ServedTransfer(h, h1, f, dir, dir == Read || h[0].main.cfg.writePolicy == WriteBackWriteAllocate, o.hit, o.way, o.h, h2);
    Access(Comm(o.hit, f.index, o.way), h2)
  }

  /** cacheCommunicate's choice between the read and the write path. */
  function Dispatch(h: Hierarchy, a: Word, f: Fields, dir: Dir): (r: Outcome)
    requires HierWF(h) && |h| > 0 && f == Decode(h[0].main.cfg.layout, a)
    decreases |h|, VictimRank(h), 7
    ensures Preserves(h, r.h) && Dispatched(h, f, dir, r)
    ensures VictimAnswered(h, a, dir, dir == Read || h[0].main.cfg.writePolicy == WriteBackWriteAllocate, r.hit)
  {
    if dir == Read then DoRead(h, a, f) else DoWrite(h, a, f)
  }

  /** What the read or write path reports, and after a write-back write the answering way is dirty. */
  predicate Dispatched(h: Hierarchy, f: Fields, dir: Dir, r: Outcome)
    requires HierWF(h) && |h| > 0 && Preserves(h, r.h) && f.index < h[0].main.cfg.nSets
  {
    && Reported(h, f, dir, dir == Read || h[0].main.cfg.writePolicy == WriteBackWriteAllocate, r)
    && (dir == Write && h[0].main.cfg.writePolicy == WriteBackWriteAllocate ==>
          r.way < h[0].main.cfg.assoc && r.h[0].main.sets[f.index].ways[r.way].dirty)
  }

  /** The counters after one access: one more access, and one more hit or miss of the direction. */
  predicate Counted(s: Stats, s': Stats, dir: Dir, hit: bool) {
    && s'.numAccess == s.numAccess + 1
    && s'.readHits + s'.readMisses + s'.writeHits + s'.writeMisses
       == s.readHits + s.readMisses + s.writeHits + s.writeMisses + 1
    && (dir == Read ==> && s'.readHits == s.readHits + (if hit then 1 else 0)
                        && s'.readMisses == s.readMisses + (if hit then 0 else 1)
                        && s'.writeHits == s.writeHits && s'.writeMisses == s.writeMisses)
    && (dir == Write ==> && s'.writeHits == s.writeHits + (if hit then 1 else 0)
                         && s'.writeMisses == s.writeMisses + (if hit then 0 else 1)
                         && s'.readHits == s.readHits && s'.readMisses == s.readMisses)
  }

  /**
   * What one access does to the head level, the counters apart: which way
   * answers, when it is a hit, where the block lands, which sets change,
   * and when a swap or a write-back is counted. h' is the hierarchy after
   * the access, hit and way are the answer.
   */
  predicate Served(h: Hierarchy, f: Fields, dir: Dir, allocate: bool, hit: bool, way: nat, h': Hierarchy)
    requires HierWF(h) && |h| > 0 && Preserves(h, h')
    requires f.index < h[0].main.cfg.nSets
  {
    var c, c' := h[0].main, h'[0].main;
    var ws := c.sets[f.index].ways;
    var k := FindHit(ws, f.tag);
    var allocating := (dir == Read && !c.cfg.isVictim) || (dir == Write && allocate);
    && OtherSetsSame(c, c', f.index)
    && (hit ==> way < c.cfg.assoc)
    && (k < c.cfg.assoc ==> hit && way == k)
    && (hit && k == c.cfg.assoc ==> h[0].victim.Some?)
    && c'.stats.swaps == c.stats.swaps + (if hit && k == c.cfg.assoc then 1 else 0)
    && (allocating ==>
          && way < c.cfg.assoc
          && (Coherent(h[0]) ==> c'.sets[f.index].ways[way].tag == f.tag)
          && (c'.sets[f.index].ways[way].valid || (hit && k == c.cfg.assoc))
          && (ws[way].valid ==> c'.sets[f.index].ways[way].valid))
    && (c.cfg.isVictim && dir == Read ==>
          && hit == (k < c.cfg.assoc) && way == k
          && c'.sets == c.sets && h'[0].victim == h[0].victim && h'[1..] == h[1..])
    && (dir == Write && !allocate && k == c.cfg.assoc ==> !hit && way == k && c'.sets == c.sets)
    && (allocating && k == c.cfg.assoc ==>
          var e := ws[way];
          c'.stats.writeBacks == c.stats.writeBacks + (if h[0].victim.None? && e.valid && e.dirty then 1 else 0))
    && (!(allocating && k == c.cfg.assoc) ==> c'.stats.writeBacks == c.stats.writeBacks)
  }

  /** The facts ReadWriteCommon and its callers report about one level's access. */
  predicate Reported(h: Hierarchy, f: Fields, dir: Dir, allocate: bool, r: Outcome)
    requires HierWF(h) && |h| > 0 && Preserves(h, r.h)
    requires f.index < h[0].main.cfg.nSets
  {
    SameCounts(h[0].main.stats, r.h[0].main.stats) && Served(h, f, dir, allocate, r.hit, r.way, r.h)
  }

  /** Served survives changes to the head cache's hit/miss counters before and after the access. */
  lemma ServedTransfer(h: Hierarchy, h1: Hierarchy, f: Fields, dir: Dir, allocate: bool,
                       hit: bool, way: nat, g: Hierarchy, g2: Hierarchy)
    requires HierWF(h) && |h| > 0 && f.index < h[0].main.cfg.nSets
    requires Preserves(h, h1) && h1[1..] == h[1..] && h1[0].victim == h[0].victim
    requires h1[0].main.sets == h[0].main.sets
    requires h1[0].main.stats.swaps == h[0].main.stats.swaps
    requires h1[0].main.stats.writeBacks == h[0].main.stats.writeBacks
    requires Preserves(h1, g) && Served(h1, f, dir, allocate, hit, way, g)
    requires Preserves(g, g2) && g2[1..] == g[1..] && g2[0].victim == g[0].victim
    requires g2[0].main.sets == g[0].main.sets
    requires g2[0].main.stats.swaps == g[0].main.stats.swaps
    requires g2[0].main.stats.writeBacks == g[0].main.stats.writeBacks
    ensures Preserves(h, g2) && Served(h, f, dir, allocate, hit, way, g2)
  {
    PreservesTrans(h, h1, g);
    PreservesTrans(h, g, g2);
  }

  /** cacheDoRead: the common path, allocating on a miss. */
  function DoRead(h: Hierarchy, a: Word, f: Fields): (r: Outcome)
    requires HierWF(h) && |h| > 0 && f == Decode(h[0].main.cfg.layout, a)
    decreases |h|, VictimRank(h), 6
    ensures Preserves(h, r.h) && Reported(h, f, Read, true, r)
    ensures VictimAnswered(h, a, Read, true, r.hit)
  {
    ReadWriteCommon(h, a, f, Read, true)
  }

  /**
   * cacheDoWrite: write-back caches allocate on a miss and then mark the
   * written line dirty, hit or miss; write-through caches do not allocate.
   */
  function DoWrite(h: Hierarchy, a: Word, f: Fields): (r: Outcome)
    requires HierWF(h) && |h| > 0 && f == Decode(h[0].main.cfg.layout, a)
    decreases |h|, VictimRank(h), 6
    ensures Preserves(h, r.h)
    ensures Reported(h, f, Write, h[0].main.cfg.writePolicy == WriteBackWriteAllocate, r)
    ensures VictimAnswered(h, a, Write, h[0].main.cfg.writePolicy == WriteBackWriteAllocate, r.hit)
    ensures h[0].main.cfg.writePolicy == WriteBackWriteAllocate ==>
              r.way < h[0].main.cfg.assoc && r.h[0].main.sets[f.index].ways[r.way].dirty
  {
    var c := h[0].main;
    if c.cfg.writePolicy == WriteBackWriteAllocate then
      var o := ReadWriteCommon(h, a, f, Write, true);
      var c1 := o.h[0].main;
      var c2 := SetDirty(c1, f.index, o.way, true);
      var r := Outcome(o.hit, o.way, WithMain(o.h, c2));
      assert Reported(h, f, Write, true, o);
      r
    else
      ReadWriteCommon(h, a, f, Write, false)
  }

  /**
   * cacheDoReadWriteCommon. A victim cache answers a read with the lookup
   * alone. A hit updates the replacement counters. A miss that allocates goes
   * through Allocate; a write miss that does not allocate is written through
   * to the next level.
   */
  function ReadWriteCommon(h: Hierarchy, a: Word, f: Fields, dir: Dir, allocate: bool): (r: Outcome)
    requires HierWF(h) && |h| > 0 && f == Decode(h[0].main.cfg.layout, a)
    decreases |h|, VictimRank(h), 5
    ensures Preserves(h, r.h) && Reported(h, f, dir, allocate, r)
    ensures VictimAnswered(h, a, dir, allocate, r.hit)
  {
    var c := h[0].main;
    var k := FindHit(c.sets[f.index].ways, f.tag);
    if c.cfg.isVictim && dir == Read then
      VictimLookup(h, f, allocate)
    else if k < c.cfg.assoc then
      HitAccess(h, f, dir, allocate)
    else if dir == Read || allocate then
      var o := Allocate(h, a, f);
      AllocatedReported(h, f, dir, allocate, o);
      o
    else
      WriteAround(h, a, f)
  }

  /** A read of a victim cache is a lookup alone: the answer is the scan's, and nothing changes. */
  function VictimLookup(h: Hierarchy, f: Fields, allocate: bool): (r: Outcome)
    requires HierWF(h) && |h| > 0 && h[0].main.cfg.isVictim && f.index < h[0].main.cfg.nSets
    ensures Preserves(h, r.h) && Reported(h, f, Read, allocate, r)
  {
    var k := FindHit(h[0].main.sets[f.index].ways, f.tag);
    Outcome(k < h[0].main.cfg.assoc, k, h)
  }

  /** A hit outside the victim-read case: the replacement counters of the set are updated. */
  function HitAccess(h: Hierarchy, f: Fields, dir: Dir, allocate: bool): (r: Outcome)
    requires HierWF(h) && |h| > 0 && f.index < h[0].main.cfg.nSets
    requires !(h[0].main.cfg.isVictim && dir == Read)
    requires FindHit(h[0].main.sets[f.index].ways, f.tag) < h[0].main.cfg.assoc
    ensures Preserves(h, r.h) && Reported(h, f, dir, allocate, r)
  {
    var c := h[0].main;
    var s := c.sets[f.index];
    var k := FindHit(s.ways, f.tag);
    var s' := HitUpdate(c.cfg, s, k);
    SameLinesSetWF(c.cfg, s, s', KeepsUnique(h[0]));
    UpdateSetWF(c, f.index, s', KeepsUnique(h[0]));
    Outcome(true, k, WithMain(h, UpdateSet(c, f.index, s')))
  }

  /** A write miss that does not allocate goes on to the next level; this level is left alone. */
  function WriteAround(h: Hierarchy, a: Word, f: Fields): (r: Outcome)
    requires HierWF(h) && |h| > 0 && f == Decode(h[0].main.cfg.layout, a)
    requires FindHit(h[0].main.sets[f.index].ways, f.tag) == h[0].main.cfg.assoc
    decreases |h|, VictimRank(h), 4
    ensures Preserves(h, r.h) && Reported(h, f, Write, false, r)
    ensures HierWF(h[1..]) && r.h[1..] == Communicate(h[1..], a, Write).h
  {
    TailWF(h);
    Outcome(false, h[0].main.cfg.assoc, WithLower(h, Communicate(h[1..], a, Write).h))
  }

  /**
   * What an allocating miss leaves, as Allocate reports it: the way chosen
   * (the first free way, else the policy's choice), a hit only through the
   * victim cache, the block in the way when the victim's blocks line up,
   * and the write-back counted when a valid dirty block leaves without a
   * victim cache to take it.
   */
  predicate Allocated(h: Hierarchy, f: Fields, r: Outcome)
    requires HierWF(h) && |h| > 0 && f.index < h[0].main.cfg.nSets && Preserves(h, r.h)
  {
    var c, c' := h[0].main, r.h[0].main;
    var ws := c.sets[f.index].ways;
    var free := FirstInvalid(ws);
    && SameCounts(c.stats, c'.stats)
    && OtherSetsSame(c, c', f.index)
    && r.way < c.cfg.assoc
    && (free < c.cfg.assoc ==> r.way == free)
    && (free == c.cfg.assoc && c.cfg.repPolicy == LRU ==> ws[r.way].counter == c.cfg.assoc - 1)
    && (free == c.cfg.assoc && c.cfg.repPolicy == LFU ==> r.way == MinCounterWay(ws))
    && (r.hit ==> h[0].victim.Some?)
    && c'.stats.swaps == c.stats.swaps + (if r.hit then 1 else 0)
    && (Coherent(h[0]) ==> c'.sets[f.index].ways[r.way].tag == f.tag)
    && (c'.sets[f.index].ways[r.way].valid || r.hit)
    && (ws[r.way].valid ==> c'.sets[f.index].ways[r.way].valid)
    && c'.stats.writeBacks == c.stats.writeBacks
         + (if h[0].victim.None? && ws[r.way].valid && ws[r.way].dirty then 1 else 0)
  }

  /** An allocating miss reports what Served asks of an access that allocates. */
  lemma AllocatedReported(h: Hierarchy, f: Fields, dir: Dir, allocate: bool, r: Outcome)
    requires HierWF(h) && |h| > 0 && f.index < h[0].main.cfg.nSets && Preserves(h, r.h)
    requires FindHit(h[0].main.sets[f.index].ways, f.tag) == h[0].main.cfg.assoc
    requires (dir == Read && !h[0].main.cfg.isVictim) || (dir == Write && allocate)
    requires Allocated(h, f, r)
    ensures Reported(h, f, dir, allocate, r)
  {
  }

  /**
   * The allocation half of a miss: pick the way (the first free way, else the
   * policy's choice, updating the policy's counters), then go through the
   * victim cache if there is one, else straight to Finish.
   */
  function Allocate(h: Hierarchy, a: Word, f: Fields): (r: Outcome)
    requires HierWF(h) && |h| > 0 && f == Decode(h[0].main.cfg.layout, a)
    requires FindHit(h[0].main.sets[f.index].ways, f.tag) == h[0].main.cfg.assoc
    decreases |h|, VictimRank(h), 4
    ensures Preserves(h, r.h) && Allocated(h, f, r)
    ensures h[0].victim.Some? ==> (r.hit <==> VictimHolds(h, a))
  {
    var p := ChooseWay(h, f);
    if p.0[0].victim.Some? then Evict(p.0, a, f, p.1) else Finish(p.0, a, f, p.1, false)
  }

  /**
   * The way a miss fills: the first free way, else the replacement policy's
   * choice, with the policy's counters updated in the set. Nothing but the
   * set's counters changes.
   */
  function ChooseWay(h: Hierarchy, f: Fields): (r: (Hierarchy, nat))
    requires HierWF(h) && |h| > 0 && f.index < h[0].main.cfg.nSets
    requires FindHit(h[0].main.sets[f.index].ways, f.tag) == h[0].main.cfg.assoc
    ensures Preserves(h, r.0) && r.0[1..] == h[1..] && r.0[0].victim == h[0].victim
    ensures var c, c1 := h[0].main, r.0[0].main;
      var ws, ws1 := c.sets[f.index].ways, c1.sets[f.index].ways;
      var free := FirstInvalid(ws);
      && c1.stats == c.stats
      && OtherSetsSame(c, c1, f.index)
      && r.1 < c.cfg.assoc
      && SameLine(ws1[r.1], ws[r.1])
      && FindHit(ws1, f.tag) == c.cfg.assoc
      && (free < c.cfg.assoc ==> r.1 == free)
      && (free == c.cfg.assoc && c.cfg.repPolicy == LRU ==> ws[r.1].counter == c.cfg.assoc - 1)
      && (free == c.cfg.assoc && c.cfg.repPolicy == LFU ==> r.1 == MinCounterWay(ws))
  {
    var c := h[0].main;
    var s := c.sets[f.index];
    var free := FirstInvalid(s.ways);
    var (s', way) := Replace(c.cfg, s, free);
    SameLinesSetWF(c.cfg, s, s', KeepsUnique(h[0]));
    SameLinesAgree(s.ways, s'.ways, f.tag);
    UpdateSetWF(c, f.index, s', KeepsUnique(h[0]));
    (WithMain(h, UpdateSet(c, f.index, s')), way)
  }

  /**
   * The victim-cache part of a miss. The victim is probed with a read; on a
   * hit its line and the chosen way are swapped and the access counts as a
   * hit. Otherwise a valid block leaving the chosen way is written into the
   * victim (carrying its dirty bit) instead of being written back, and the
   * miss completes in Finish.
   */
  function Evict(h: Hierarchy, a: Word, f: Fields, way: nat): (r: Outcome)
    requires HierWF(h) && |h| > 0 && h[0].victim.Some? && f == Decode(h[0].main.cfg.layout, a)
    requires way < h[0].main.cfg.assoc
    requires FindHit(h[0].main.sets[f.index].ways, f.tag) == h[0].main.cfg.assoc
    decreases |h|, VictimRank(h), 3
    ensures Preserves(h, r.h) && r.way == way
    ensures var c, c' := h[0].main, r.h[0].main;
      && SameCounts(c.stats, c'.stats)
      && OtherSetsSame(c, c', f.index)
      && c'.stats.swaps == c.stats.swaps + (if r.hit then 1 else 0)
      && c'.stats.writeBacks == c.stats.writeBacks
      && (Coherent(h[0]) ==> c'.sets[f.index].ways[way].tag == f.tag)
      && (c'.sets[f.index].ways[way].valid || r.hit)
      && (c.sets[f.index].ways[way].valid ==> c'.sets[f.index].ways[way].valid)
    ensures var v := h[0].victim.value; var vf := Decode(v.cfg.layout, a);
      vf.index < v.cfg.nSets && (r.hit <==> FindHit(v.sets[vf.index].ways, vf.tag) < v.cfg.assoc)
  {
    var c := h[0].main;
    var probe := Communicate(VictimView(h), a, Read);
    var h1 := FromVictimView(h, probe.h);
    if probe.comm.hit then
      SwapIn(h1, a, f, way, probe.comm.index, probe.comm.setIndex)
    else if c.sets[f.index].ways[way].valid then
      Finish(VictimTakes(h1, f.index, way), a, f, way, true)
    else
      Finish(h1, a, f, way, false)
  }

  /**
   * A victim hit: the victim's line and the chosen way trade blocks
   * (cacheVictimSwap) and the access counts as a hit. When the victim's
   * blocks line up with the owner's, the block now in the way is the one
   * asked for.
   */
  function SwapIn(h: Hierarchy, a: Word, f: Fields, way: nat, vIndex: nat, vWay: nat): (r: Outcome)
    requires HierWF(h) && |h| > 0 && h[0].victim.Some? && f == Decode(h[0].main.cfg.layout, a)
    requires way < h[0].main.cfg.assoc
    requires FindHit(h[0].main.sets[f.index].ways, f.tag) == h[0].main.cfg.assoc
    requires vIndex < h[0].victim.value.cfg.nSets && vWay < h[0].victim.value.cfg.assoc
    requires Coherent(h[0]) ==>
      var v := h[0].victim.value;
      vIndex == Decode(v.cfg.layout, a).index && v.sets[vIndex].ways[vWay].tag == Decode(v.cfg.layout, a).tag
    ensures Preserves(h, r.h) && r.hit && r.way == way && r.h[1..] == h[1..]
    ensures var c, c' := h[0].main, r.h[0].main;
      && c'.stats == c.stats.(swaps := c.stats.swaps + 1)
      && OtherSetsSame(c, c', f.index)
      && (Coherent(h[0]) ==> c'.sets[f.index].ways[way].tag == f.tag)
      && c'.sets[f.index].ways[way].valid == c.sets[f.index].ways[way].valid
  {
    Outcome(true, way, WithHead(h, SwapLevel(h[0], a, f, way, vIndex, vWay)))
  }

  /** The level after cacheVictimSwap: what SwapIn does to the head level. */
  function SwapLevel(l: Level, a: Word, f: Fields, way: nat, vIndex: nat, vWay: nat): (l': Level)
    requires LevelWF(l) && l.victim.Some? && f == Decode(l.main.cfg.layout, a)
    requires way < l.main.cfg.assoc
    requires FindHit(l.main.sets[f.index].ways, f.tag) == l.main.cfg.assoc
    requires vIndex < l.victim.value.cfg.nSets && vWay < l.victim.value.cfg.assoc
    requires Coherent(l) ==>
      var v := l.victim.value;
      vIndex == Decode(v.cfg.layout, a).index && v.sets[vIndex].ways[vWay].tag == Decode(v.cfg.layout, a).tag
    ensures LevelWF(l') && l'.main.cfg == l.main.cfg
    ensures l'.victim.Some? && l'.victim.value.cfg == l.victim.value.cfg
    ensures l'.main.stats == l.main.stats.(swaps := l.main.stats.swaps + 1)
    ensures OtherSetsSame(l.main, l'.main, f.index)
    ensures Coherent(l) ==> l'.main.sets[f.index].ways[way].tag == f.tag
    ensures l'.main.sets[f.index].ways[way].valid == l.main.sets[f.index].ways[way].valid
  {
    var c, v := l.main, l.victim.value;
    ForgetUnique(c, KeepsUnique(l));
    var (c', v') := VictimSwap(c, v, f.index, way, vIndex, vWay);
    var l' := Level(c', Some(v'));
    assert LevelWF(l') && (Coherent(l) ==> c'.sets[f.index].ways[way].tag == f.tag) by {
      if Coherent(l) {
        CoherentSwap(c, v, a, way, vIndex, vWay);
      }
    }
    l'
  }

  /**
   * When the victim's blocks line up with the owner's, swapping in the
   * victim's copy of the block at a puts a's tag into the chosen way, and
   * the owner still holds each block at most once per set.
   */
  lemma CoherentSwap(c: Cache, v: Cache, a: Word, way: nat, vIndex: nat, vWay: nat)
    requires CacheWF(c, !c.cfg.isVictim) && CacheWF(v, false) && v.cfg.repPolicy == LRU
    requires Compatible(c.cfg, v.cfg)
    requires var f := Decode(c.cfg.layout, a);
      way < c.cfg.assoc && FindHit(c.sets[f.index].ways, f.tag) == c.cfg.assoc
    requires vIndex < |v.sets| && vWay < v.cfg.assoc
    requires vIndex == Decode(v.cfg.layout, a).index && v.sets[vIndex].ways[vWay].tag == Decode(v.cfg.layout, a).tag
    ensures var f := Decode(c.cfg.layout, a);
      var c' := (ForgetUnique(c, !c.cfg.isVictim); VictimSwap(c, v, f.index, way, vIndex, vWay).0);
      c'.sets[f.index].ways[way].tag == f.tag && CacheWF(c', !c.cfg.isVictim)
  {
    ForgetUnique(c, !c.cfg.isVictim);
    var f := Decode(c.cfg.layout, a);
    var c' := VictimSwap(c, v, f.index, way, vIndex, vWay).0;
    VictimBlockDecodes(c.cfg.layout, v.cfg.layout, a);
    assert c'.sets[f.index].ways[way].tag == f.tag;
    if !c.cfg.isVictim {
      var ws := c.sets[f.index].ways;
      PlaceKeepsTagsUnique(ws, way, c'.sets[f.index].ways[way]);
      assert SetWF(c.cfg, c'.sets[f.index], true);
      forall i | 0 <= i < |c'.sets| ensures SetWF(c'.cfg, c'.sets[i], true) {
        if i != f.index {
          assert c'.sets[i] == c.sets[i];
        }
      }
    }
  }

  /**
   * A valid block leaving a cache with a victim cache is written into the
   * victim, and the victim's copy takes over the leaving line's dirty bit.
   * The owning cache is left alone.
   */
  function VictimTakes(h: Hierarchy, index: nat, way: nat): (r: Hierarchy)
    requires HierWF(h) && |h| > 0 && h[0].victim.Some?
    requires index < h[0].main.cfg.nSets && way < h[0].main.cfg.assoc
    decreases |h|, VictimRank(h), 2
    ensures Preserves(h, r) && r[0].main == h[0].main
  {
    var c := h[0].main;
    var line := c.sets[index].ways[way];
    var wr := Communicate(VictimView(h), Encode(c.cfg.layout, line.tag, index, 0), Write);
    var h2 := FromVictimView(h, wr.h);
    var v2 := h2[0].victim.value;
    var v3 := SetDirty(v2, wr.comm.index, wr.comm.setIndex, line.dirty);
    [Level(c, Some(v3))] + h2[1..]
  }

  /**
   * The end of an allocating miss: write back the leaving block if it is
   * valid and dirty (unless the victim cache took it), refill from the next
   * level (a victim cache does not), and install the tag as a valid, clean
   * line.
   */
  function Finish(h: Hierarchy, a: Word, f: Fields, way: nat, bypass: bool): (r: Outcome)
    requires HierWF(h) && |h| > 0 && f == Decode(h[0].main.cfg.layout, a)
    requires way < h[0].main.cfg.assoc
    requires FindHit(h[0].main.sets[f.index].ways, f.tag) == h[0].main.cfg.assoc
    decreases |h|, VictimRank(h), 2
    ensures Preserves(h, r.h) && Installed(h, f, way, bypass, r)
  {
    var c := h[0].main;
    var h1 := WriteBackLine(h, f.index, way, bypass);
    TailWF(h1);
    var h2 := if !c.cfg.isVictim then WithLower(h1, Communicate(h1[1..], a, Read).h) else h1;
    assert Preserves(h1, h2) && h2[0] == h1[0];
    PreservesTrans(h, h1, h2);
    Install(h, h2, f, way, bypass)
  }

  /**
   * What the end of an allocating miss leaves in the head level: a miss in
   * the chosen way, the leaving block counted as written back when it was
   * valid and dirty and not taken by the victim cache, and the tag in the
   * way as a valid, clean line with its old counter. Nothing else in the
   * level changes.
   */
  predicate Installed(h: Hierarchy, f: Fields, way: nat, bypass: bool, r: Outcome)
    requires HierWF(h) && |h| > 0 && f.index < h[0].main.cfg.nSets && way < h[0].main.cfg.assoc
    requires Preserves(h, r.h)
  {
    var c, c' := h[0].main, r.h[0].main;
    var line := c.sets[f.index].ways[way];
    && !r.hit && r.way == way && r.h[0].victim == h[0].victim
    && SameCounts(c.stats, c'.stats) && c'.stats.swaps == c.stats.swaps
    && c'.stats.writeBacks == c.stats.writeBacks + (if line.valid && line.dirty && !bypass then 1 else 0)
    && OtherSetsSame(c, c', f.index)
    && c'.sets[f.index].ways == c.sets[f.index].ways[way := Way(f.tag, true, false, line.counter)]
  }

  /**
   * The install step of Finish, once the write-back and the refill have
   * left h2: the head cache of h2 is h's with only the write-back count
   * moved.
   */
  function Install(h: Hierarchy, h2: Hierarchy, f: Fields, way: nat, bypass: bool): (r: Outcome)
    requires HierWF(h) && |h| > 0 && f.index < h[0].main.cfg.nSets && way < h[0].main.cfg.assoc
    requires f.tag < Pow2(h[0].main.cfg.layout.tagSize)
    requires FindHit(h[0].main.sets[f.index].ways, f.tag) == h[0].main.cfg.assoc
    requires Preserves(h, h2) && h2[0].victim == h[0].victim
    requires var c, line := h[0].main, h[0].main.sets[f.index].ways[way];
      h2[0].main == c.(stats := c.stats.(writeBacks := c.stats.writeBacks
                                         + if line.valid && line.dirty && !bypass then 1 else 0))
    ensures Preserves(h, r.h) && Installed(h, f, way, bypass, r)
  {
    var c := h[0].main;
    var line := c.sets[f.index].ways[way];
    var s := c.sets[f.index];
    InstallWF(c, f.index, way, f.tag, KeepsUnique(h[0]));
    var c3 := h2[0].main.(sets := c.sets[f.index := s.(ways := s.ways[way := Way(f.tag, true, false, line.counter)])]);
    PreservesTrans(h, h2, WithMain(h2, c3));
    Outcome(false, way, WithMain(h2, c3))
  }

  lemma PreservesTrans(h0: Hierarchy, h1: Hierarchy, h2: Hierarchy)
    requires Preserves(h0, h1) && Preserves(h1, h2)
    ensures Preserves(h0, h2)
  {
  }

  /** Installing a tag the set does not hold, as a valid clean line, keeps the cache well formed. */
  lemma InstallWF(c: Cache, i: nat, k: nat, tag: nat, unique: bool)
    requires CacheWF(c, unique) && i < |c.sets| && k < c.cfg.assoc
    requires tag < Pow2(c.cfg.layout.tagSize)
    requires FindHit(c.sets[i].ways, tag) == c.cfg.assoc
    ensures var s := c.sets[i];
      CacheWF(c.(sets := c.sets[i := s.(ways := s.ways[k := Way(tag, true, false, s.ways[k].counter)])]), unique)
  {
    var s := c.sets[i];
    var s' := s.(ways := s.ways[k := Way(tag, true, false, s.ways[k].counter)]);
    if unique {
      PlaceKeepsTagsUnique(s.ways, k, s'.ways[k]);
    }
    assert forall j :: 0 <= j < |s.ways| ==> s'.ways[j].counter == s.ways[j].counter;
    assert SetWF(c.cfg, s', unique);
    UpdateSetWF(c, i, s', unique);
  }

  /**
   * The write-back test of a miss: the block leaving the way is written back
   * when it is valid and dirty, unless the victim cache took it.
   */
  function WriteBackLine(h: Hierarchy, index: nat, way: nat, bypass: bool): (r: Hierarchy)
    requires HierWF(h) && |h| > 0 && index < |h[0].main.sets| && way < h[0].main.cfg.assoc
    decreases |h|, VictimRank(h), 1
    ensures Preserves(h, r) && r[0].victim == h[0].victim
    ensures var c, line := h[0].main, h[0].main.sets[index].ways[way];
      r[0].main == c.(stats := c.stats.(writeBacks := c.stats.writeBacks
                                        + if line.valid && line.dirty && !bypass then 1 else 0))
  {
    var c := h[0].main;
    var line := c.sets[index].ways[way];
    if line.valid && !bypass && line.dirty then
      WriteBackData(h, Encode(c.cfg.layout, line.tag, index, 0))
    else
      h
  }

  /** cacheWriteBackData: count the write-back and send the block to the next level as a write. */
  function WriteBackData(h: Hierarchy, address: Word): (r: Hierarchy)
    requires HierWF(h) && |h| > 0
    decreases |h|, VictimRank(h), 0
    ensures Preserves(h, r) && r[0].victim == h[0].victim
    ensures r[0].main == h[0].main.(stats := h[0].main.stats.(writeBacks := h[0].main.stats.writeBacks + 1))
    ensures HierWF(h[1..]) && r[1..] == Communicate(h[1..], address, Write).h
  {
    var c := h[0].main;
    var h1 := WithMain(h, c.(stats := c.stats.(writeBacks := c.stats.writeBacks + 1)));
    TailWF(h1);
    WithLower(h1, Communicate(h1[1..], address, Write).h)
  }
}
