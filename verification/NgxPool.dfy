/** The block pool allocator: bump blocks with a moving current, and large allocations listed inside them. */
module NgxPool {

  const ALIGNMENT := 8
  const MALLOC_ALIGNMENT := 16
  const POOL_HEADER := 64
  const DATA_HEADER := 32
  const LARGE_NODE := 16
  const MAX_ALLOC_FROM_POOL := 4095
  const NULL := 0
  const NOT_LARGE := -5

  /** The masking of ngx_align_ptr, for the two powers of two in use. */
  function AlignUp(p: int, a: int): (r: int)
    requires a == ALIGNMENT || a == MALLOC_ALIGNMENT
    ensures p <= r < p + a && r % a == 0
  {
    if a == ALIGNMENT then p + 7 - (p + 7) % 8 else p + 15 - (p + 15) % 16
  }

  // ---------- malloc and free ----------

  function Extent(size: nat): (n: nat)
    ensures n > 0 && n >= size
  {
    if size == 0 then 1 else size
  }

  // [p, p + n) and [q, q + m) have no byte in common.
  predicate Apart(p: int, n: int, q: int, m: int) {
    p + n <= q || q + m <= p
  }

  /** The live allocations: aligned, and pairwise apart. */
  predicate Separated(live: map<int, nat>) {
    && (forall p | p in live :: 0 < p && p % MALLOC_ALIGNMENT == 0)
    && (forall p, q | p in live && q in live && p != q :: Apart(p, Extent(live[p]), q, Extent(live[q])))
  }

  /** Where malloc may put size bytes: aligned, and apart from everything live. */
  predicate MayReturn(live: map<int, nat>, size: nat, p: int) {
    0 < p && p % MALLOC_ALIGNMENT == 0 && forall q | q in live :: Apart(p, Extent(size), q, Extent(live[q]))
  }

  /** A call of malloc: what was asked for, and what came back. */
  datatype Answer = Answer(size: nat, p: int)

  lemma RefusedLater(before: seq<Answer>, a: Answer, after: seq<Answer>)
    requires before + [a] <= after && a.p != NULL
    ensures Refused(before, after) <==> Refused(before + [a], after)
  {
    assert after[|before|] == a;
  }

  lemma RefusedNow(before: seq<Answer>, a: Answer)
    ensures Refused(before, before + [a]) <==> a.p == NULL
  {
    assert (before + [a])[|before|] == a;
  }

  /** Malloc refused one of the requests made since. */
  ghost predicate Refused(before: seq<Answer>, after: seq<Answer>) {
    exists i :: |before| <= i < |after| && after[i].p == NULL
  }

  class Heap {
    var live: map<int, nat>
    ghost var asked: seq<Answer>

    ghost predicate Valid()
      reads this
    {
      Separated(live)
    }

    constructor ()
      ensures Valid() && live == map[] && asked == []
    {
      live, asked := map[], [];
    }

    /** Fails, or returns any place there may be. */
    method Malloc(size: nat) returns (p: int)
      requires Valid()
      modifies this
      ensures Valid()
      ensures asked == old(asked) + [Answer(size, p)]
      ensures p == NULL ==> live == old(live)
      ensures p != NULL ==> MayReturn(old(live), size, p) && p !in old(live) && live == old(live)[p := size]
    {
      p := *;
      if MayReturn(live, size, p) {
        live := live[p := size];
      } else {
        p := NULL;
      }
      asked := asked + [Answer(size, p)];
    }

    /** Only live memory may be freed, so nothing is freed twice. */
    method Free(p: int)
      requires Valid() && p in live
      modifies this`live
      ensures Valid() && live == old(live) - {p}
    {
      live := live - {p};
    }
  }

  // ---------- blocks, regions and large nodes ----------

  datatype Block = Block(base: int, last: int, failed: nat)

  /** A region handed out of block number block. */
  datatype Region = Region(base: int, size: nat, block: nat)

  datatype Large = Large(node: int, alloc: int)

  function HeaderEnd(blocks: seq<Block>, i: nat): int
    requires i < |blocks|
  {
    blocks[i].base + if i == 0 then POOL_HEADER else DATA_HEADER
  }

  /** Every block is live memory, with header end <= last <= end. */
  predicate BlocksOk(blocks: seq<Block>, size: nat, live: map<int, nat>) {
    && (forall i | 0 <= i < |blocks| ::
          && blocks[i].base in live && live[blocks[i].base] == size
          && HeaderEnd(blocks, i) <= blocks[i].last <= blocks[i].base + size)
    && (forall i, j | 0 <= i < j < |blocks| :: blocks[i].base != blocks[j].base)
  }

  /** Handed-out regions lie behind the header and below last of their block, and later ones behind earlier ones. */
  predicate RegionsOk(blocks: seq<Block>, regions: seq<Region>) {
    && (forall i | 0 <= i < |regions| ::
          var r := regions[i];
          r.block < |blocks| && HeaderEnd(blocks, r.block) <= r.base && r.base + r.size <= blocks[r.block].last)
    && (forall i, j | 0 <= i < j < |regions| && regions[i].block == regions[j].block ::
          regions[i].base + regions[i].size <= regions[j].base)
  }

  /** Search-skip: before current every block has failed six times, from current on the counts do not increase. */
  predicate SkipOk(blocks: seq<Block>, current: nat) {
    && current < |blocks|
    && (forall i | 0 <= i < current :: blocks[i].failed == 6)
    && (forall i | current <= i < |blocks| :: blocks[i].failed <= 5)
    && (forall i, j | current <= i <= j < |blocks| :: blocks[j].failed <= blocks[i].failed)
  }

  /** Large nodes are aligned regions of their own. */
  predicate NodesOk(regions: seq<Region>, large: seq<Large>, nodes: seq<nat>) {
    && |nodes| == |large|
    && (forall i | 0 <= i < |large| ::
          && nodes[i] < |regions|
          && regions[nodes[i]].base == large[i].node && regions[nodes[i]].size == LARGE_NODE
          && large[i].node % ALIGNMENT == 0)
    && (forall i, j | 0 <= i < j < |large| :: nodes[i] != nodes[j])
  }

  /** What large nodes point at is live, no block, and pointed at once. */
  predicate AllocsOk(blocks: seq<Block>, large: seq<Large>, live: map<int, nat>) {
    && (forall i | 0 <= i < |large| && large[i].alloc != NULL :: large[i].alloc in live && large[i].alloc !in Bases(blocks))
    && (forall i, j | 0 <= i < j < |large| && large[i].alloc != NULL :: large[i].alloc != large[j].alloc)
  }

  function Bases(blocks: seq<Block>): set<int> {
    set i | 0 <= i < |blocks| :: blocks[i].base
  }

  function Allocs(large: seq<Large>): set<int> {
    set i | 0 <= i < |large| && large[i].alloc != NULL :: large[i].alloc
  }

  /** Any two handed-out regions, large nodes among them, have no byte in common. */
  lemma RegionsApart(blocks: seq<Block>, size: nat, live: map<int, nat>, regions: seq<Region>, i: nat, j: nat)
    requires Separated(live) && BlocksOk(blocks, size, live) && RegionsOk(blocks, regions)
    requires i < j < |regions|
    ensures Apart(regions[i].base, regions[i].size, regions[j].base, regions[j].size)
  {
    var a, b := regions[i].block, regions[j].block;
    if a != b {
      var p, q := blocks[a].base, blocks[b].base;
      assert p != q;
      assert Apart(p, Extent(live[p]), q, Extent(live[q]));
    }
  }

  /** A handed-out region overlaps no block header. */
  lemma RegionClearsHeaders(blocks: seq<Block>, size: nat, live: map<int, nat>, regions: seq<Region>, i: nat, b: nat)
    requires Separated(live) && BlocksOk(blocks, size, live) && RegionsOk(blocks, regions)
    requires i < |regions| && b < |blocks|
    ensures Apart(regions[i].base, regions[i].size, blocks[b].base, HeaderEnd(blocks, b) - blocks[b].base)
  {
    var a := regions[i].block;
    if a != b {
      var p, q := blocks[a].base, blocks[b].base;
      assert p != q;
      assert Apart(p, Extent(live[p]), q, Extent(live[q]));
    }
  }

  /** A large allocation overlaps no handed-out region. */
  lemma LargeClearsRegions(blocks: seq<Block>, size: nat, live: map<int, nat>, regions: seq<Region>, large: seq<Large>,
                           l: nat, i: nat)
    requires Separated(live) && BlocksOk(blocks, size, live) && RegionsOk(blocks, regions)
    requires AllocsOk(blocks, large, live)
    requires l < |large| && large[l].alloc != NULL && i < |regions|
    ensures Apart(large[l].alloc, live[large[l].alloc], regions[i].base, regions[i].size)
  {
    var p, q := large[l].alloc, blocks[regions[i].block].base;
    assert q in Bases(blocks) && p != q;
    assert Apart(p, Extent(live[p]), q, Extent(live[q]));
  }

  lemma {:induction false} FreeFrom(live: map<int, nat>, keys: set<int>) returns (top: nat)
    requires forall q | q in keys :: q in live
    ensures forall q | q in keys :: q + Extent(live[q]) <= top
    decreases keys
  {
    top := 0;
    if q :| q in keys {
      top := FreeFrom(live, keys - {q});
      if top < q + Extent(live[q]) {
        top := q + Extent(live[q]);
      }
    }
  }

  lemma MayReturnBehind(live: map<int, nat>, top: nat, n: nat, p: int)
    requires (forall q | q in live :: q + Extent(live[q]) <= top) && top <= p && 0 < p && p % MALLOC_ALIGNMENT == 0
    ensures MayReturn(live, n, p)
  {
  }

  lemma TimesAtLeast(a: int, d: int)
    requires 0 < a && 1 <= d
    ensures a <= a * d
  {
  }

  lemma MultipleHasNoRest(k: int, a: int)
    requires 0 < a
    ensures (k * a) % a == 0
  {
    var d, r := k * a / a - k, k * a % a;
    assert a * (k * a / a) + r == k * a && a * d == a * (k * a / a) - a * k;
    assert a * d == -r && a * -d == r;
    if d <= -1 {
      TimesAtLeast(a, -d);
      assert false;
    }
    if 1 <= d {
      TimesAtLeast(a, d);
      assert false;
    }
  }

  /** Of two neighbouring places one is not aligned to a, if a does not divide their distance. */
  lemma NotBothAligned(p: int, a: int)
    requires 0 < a && p % a == 0 && (p + MALLOC_ALIGNMENT) % a == 0
    ensures MALLOC_ALIGNMENT % a == 0
  {
    var x, y := p / a, (p + MALLOC_ALIGNMENT) / a;
    assert p == x * a && p + MALLOC_ALIGNMENT == y * a;
    assert MALLOC_ALIGNMENT == (y - x) * a;
    MultipleHasNoRest(y - x, a);
  }

  lemma DivisorHonoured(p: int, a: int)
    requires 0 < a && MALLOC_ALIGNMENT % a == 0 && p % MALLOC_ALIGNMENT == 0
    ensures p % a == 0
  {
    var k, d := MALLOC_ALIGNMENT / a, p / MALLOC_ALIGNMENT;
    assert MALLOC_ALIGNMENT == k * a && p == d * MALLOC_ALIGNMENT;
    assert p == d * (k * a) == (d * k) * a;
    MultipleHasNoRest(d * k, a);
  }

  /** Whatever is live, there is a place for n bytes that is not aligned as asked. */
  lemma AlignmentMissed(live: map<int, nat>, n: nat, alignment: int) returns (p: int)
    requires 0 < alignment && MALLOC_ALIGNMENT % alignment != 0
    ensures MayReturn(live, n, p) && p % alignment != 0
  {
    var top := FreeFrom(live, live.Keys);
    p := AlignUp(top + 1, MALLOC_ALIGNMENT);
    if p % alignment == 0 {
      if (p + MALLOC_ALIGNMENT) % alignment == 0 {
        NotBothAligned(p, alignment);
        assert false;
      }
      p := p + MALLOC_ALIGNMENT;
    }
    MayReturnBehind(live, top, n, p);
  }

  /**
   * ngx_pmemalign hands its caller what malloc returns: whatever is live, every place it may return for n bytes is aligned
   * as asked exactly when the alignment asked for divides malloc's own.
   */
  lemma MemalignHonouredExactly(live: map<int, nat>, n: nat, alignment: int)
    requires 0 < alignment
    ensures (forall p | MayReturn(live, n, p) :: p % alignment == 0) <==> MALLOC_ALIGNMENT % alignment == 0
  {
    if MALLOC_ALIGNMENT % alignment == 0 {
      forall p | MayReturn(live, n, p) ensures p % alignment == 0 {
        DivisorHonoured(p, alignment);
      }
    } else {
      var p := AlignmentMissed(live, n, alignment);
      assert MayReturn(live, n, p);
    }
  }

  /** The failed counters after a round that found no room: current moves past the blocks that had failed five times. */
  function Bumped(blocks: seq<Block>, current: nat, n: nat): (r: seq<Block>)
    requires current <= n <= |blocks|
    ensures |r| == |blocks|
  {
    seq(|blocks|, i requires 0 <= i < |blocks| =>
      if current <= i < n then blocks[i].(failed := blocks[i].failed + 1) else blocks[i])
  }

  lemma BumpedOne(blocks: seq<Block>, current: nat, n: nat)
    requires current <= n < |blocks|
    ensures var b := Bumped(blocks, current, n);
            && b[n] == blocks[n] && b[n := b[n].(failed := b[n].failed + 1)] == Bumped(blocks, current, n + 1)
  {
  }

  // Where current has moved to, of the blocks from start to p.
  predicate SkipTo(before: seq<Block>, start: nat, current: nat, p: nat)
    requires p <= |before|
  {
    && start <= current <= p
    && (forall i | start <= i < current :: before[i].failed == 5)
    && (forall i | current <= i < p :: before[i].failed <= 4)
  }

  lemma Counted(before: seq<Block>, start: nat, current: nat)
    requires SkipOk(before, start) && SkipTo(before, start, current, |before| - 1)
    ensures SkipOk(Bumped(before, start, |before| - 1) + [Block(0, 0, 0)], current)
  {
  }

  // ---------- the steps, on values ----------

  lemma BlocksGrow(blocks: seq<Block>, size: nat, live: map<int, nat>, b: Block)
    requires BlocksOk(blocks, size, live) && blocks != []
    requires b.base in live && live[b.base] == size && b.base !in Bases(blocks)
    requires b.base + DATA_HEADER <= b.last <= b.base + size
    ensures BlocksOk(blocks + [b], size, live) && Bases(blocks + [b]) == Bases(blocks) + {b.base}
  {
    var after := blocks + [b];
    assert after[|blocks|] == b && forall i | 0 <= i < |blocks| :: after[i] == blocks[i] && blocks[i].base in Bases(blocks);
  }

  // The region [m, m + n) of block b, whose last has been moved behind it.
  lemma RegionsGrow(before: seq<Block>, blocks: seq<Block>, regions: seq<Region>, b: nat, m: int, n: nat)
    requires RegionsOk(before, regions) && |before| <= |blocks| && b < |blocks|
    requires forall i | 0 <= i < |before| :: blocks[i].base == before[i].base && before[i].last <= blocks[i].last
    requires HeaderEnd(blocks, b) <= m && (b < |before| ==> before[b].last <= m) && m + n == blocks[b].last
    ensures RegionsOk(blocks, regions + [Region(m, n, b)])
  {
    var after := regions + [Region(m, n, b)];
    assert forall i | 0 <= i < |regions| :: after[i] == regions[i];
  }

  lemma SameBases(a: seq<Block>, b: seq<Block>)
    requires |a| == |b| && forall i | 0 <= i < |a| :: a[i].base == b[i].base
    ensures Bases(a) == Bases(b)
  {
  }

  lemma NodesKept(regions: seq<Region>, more: seq<Region>, large: seq<Large>, nodes: seq<nat>)
    requires NodesOk(regions, large, nodes) && regions <= more
    ensures NodesOk(more, large, nodes)
  {
  }

  lemma NodesGrow(regions: seq<Region>, large: seq<Large>, nodes: seq<nat>, r: Region, p: int)
    requires NodesOk(regions, large, nodes) && r.size == LARGE_NODE && r.base % ALIGNMENT == 0
    ensures NodesOk(regions + [r], [Large(r.base, p)] + large, [|regions|] + nodes)
  {
    var ls, ns := [Large(r.base, p)] + large, [|regions|] + nodes;
    assert forall i | 1 <= i < |ls| :: ls[i] == large[i - 1] && ns[i] == nodes[i - 1];
  }

  lemma AllocsGrow(blocks: seq<Block>, large: seq<Large>, live: map<int, nat>, l: Large)
    requires AllocsOk(blocks, large, live) && l.alloc != NULL
    requires l.alloc in live && l.alloc !in Bases(blocks) && l.alloc !in Allocs(large)
    ensures AllocsOk(blocks, [l] + large, live) && Allocs([l] + large) == Allocs(large) + {l.alloc}
  {
    var after := [l] + large;
    assert after[0] == l && forall i | 0 <= i < |large| :: after[i + 1] == large[i];
    assert forall i | 0 < i < |after| :: after[i] == large[i - 1];
    assert forall i | 0 <= i < |large| && large[i].alloc != NULL :: large[i].alloc in Allocs(large);
  }

  lemma AllocsFilled(blocks: seq<Block>, large: seq<Large>, live: map<int, nat>, l: nat, p: int)
    requires AllocsOk(blocks, large, live) && l < |large| && large[l].alloc == NULL
    requires p != NULL && p in live && p !in Bases(blocks) && p !in Allocs(large)
    ensures var after := large[l := large[l].(alloc := p)];
            AllocsOk(blocks, after, live) && Allocs(after) == Allocs(large) + {p}
  {
    var after := large[l := large[l].(alloc := p)];
    assert after[l].alloc == p && forall i | 0 <= i < |large| && i != l :: after[i] == large[i];
    assert forall i | 0 <= i < |large| && large[i].alloc != NULL :: large[i].alloc in Allocs(large);
  }

  lemma AllocsCleared(blocks: seq<Block>, large: seq<Large>, live: map<int, nat>, l: nat)
    requires AllocsOk(blocks, large, live) && l < |large| && large[l].alloc != NULL
    ensures var after := large[l := large[l].(alloc := NULL)];
            AllocsOk(blocks, after, live - {large[l].alloc}) && Allocs(after) == Allocs(large) - {large[l].alloc}
  {
    var after := large[l := large[l].(alloc := NULL)];
    assert forall i | 0 <= i < |large| && i != l :: after[i] == large[i];
    assert forall i | 0 <= i < |large| && i != l && large[i].alloc != NULL :: large[i].alloc != large[l].alloc;
  }

  lemma SkipIgnoresPlaces(a: seq<Block>, b: seq<Block>, c: nat)
    requires |a| == |b| && SkipOk(a, c) && forall i | 0 <= i < |a| :: a[i].failed == b[i].failed
    ensures SkipOk(b, c)
  {
  }

  function Place(b: Block, align: bool): (m: int)
    ensures if align then b.last <= m < b.last + 8 && m % 8 == 0 else m == b.last
  {
    if align then AlignUp(b.last, ALIGNMENT) else b.last
  }

  /** The first block from i on with room for n bytes, or |blocks|. */
  function FirstFit(blocks: seq<Block>, size: nat, i: nat, n: nat, align: bool): (b: nat)
    requires i <= |blocks|
    ensures i <= b <= |blocks|
    ensures forall j | i <= j < b :: blocks[j].base + size - Place(blocks[j], align) < n
    ensures b < |blocks| ==> n <= blocks[b].base + size - Place(blocks[b], align)
    decreases |blocks| - i
  {
    if i < |blocks| && blocks[i].base + size - Place(blocks[i], align) < n
    then FirstFit(blocks, size, i + 1, n, align)
    else i
  }

  /** Block b has room for n bytes. */
  predicate HasRoom(b: Block, size: nat, n: nat, align: bool) {
    Place(b, align) + n <= b.base + size
  }

  predicate SomeRoom(blocks: seq<Block>, size: nat, start: nat, n: nat, align: bool) {
    exists i :: start <= i < |blocks| && HasRoom(blocks[i], size, n, align)
  }

  /** Block i is the first with room from start on. */
  predicate FirstRoom(blocks: seq<Block>, size: nat, start: nat, n: nat, align: bool, i: nat)
    requires i < |blocks|
  {
    HasRoom(blocks[i], size, n, align) && forall j | start <= j < i :: !HasRoom(blocks[j], size, n, align)
  }

  lemma RoomIsFirstFit(blocks: seq<Block>, size: nat, start: nat, n: nat, align: bool)
    requires start <= |blocks|
    ensures var b := FirstFit(blocks, size, start, n, align);
            && (b < |blocks| <==> SomeRoom(blocks, size, start, n, align))
            && (b < |blocks| ==> FirstRoom(blocks, size, start, n, align, b))
  {
    var b := FirstFit(blocks, size, start, n, align);
    assert b < |blocks| ==> HasRoom(blocks[b], size, n, align);
  }

  lemma BlocksWithout(blocks: seq<Block>, size: nat, live: map<int, nat>, p: int)
    requires BlocksOk(blocks, size, live) && p !in Bases(blocks)
    ensures BlocksOk(blocks, size, live - {p})
  {
    assert forall i | 0 <= i < |blocks| :: blocks[i].base in Bases(blocks);
  }

  lemma AllocsWithout(blocks: seq<Block>, large: seq<Large>, live: map<int, nat>, p: int)
    requires AllocsOk(blocks, large, live) && p !in Allocs(large)
    ensures AllocsOk(blocks, large, live - {p})
  {
    assert forall i | 0 <= i < |large| && large[i].alloc != NULL :: large[i].alloc in Allocs(large);
  }

  lemma SameNodes(regions: seq<Region>, before: seq<Large>, large: seq<Large>, nodes: seq<nat>)
    requires NodesOk(regions, before, nodes) && |before| == |large|
    requires forall i | 0 <= i < |large| :: large[i].node == before[i].node
    ensures NodesOk(regions, large, nodes)
  {
  }

  predicate SizesOk(size: nat, max: nat) {
    && size % ALIGNMENT == 0 && POOL_HEADER <= size
    && max == (if size - POOL_HEADER < MAX_ALLOC_FROM_POOL then size - POOL_HEADER else MAX_ALLOC_FROM_POOL)
  }

  /** The pool's whole state but for the search. */
  predicate Ok(blocks: seq<Block>, size: nat, live: map<int, nat>, regions: seq<Region>, large: seq<Large>, nodes: seq<nat>) {
    && BlocksOk(blocks, size, live) && RegionsOk(blocks, regions)
    && NodesOk(regions, large, nodes) && AllocsOk(blocks, large, live)
  }

  lemma CountedOk(before: seq<Block>, blocks: seq<Block>, size: nat, live: map<int, nat>,
                  regions: seq<Region>, large: seq<Large>, nodes: seq<nat>)
    requires Ok(before, size, live, regions, large, nodes) && |before| == |blocks|
    requires forall i | 0 <= i < |blocks| :: blocks[i].base == before[i].base && blocks[i].last == before[i].last
    ensures Ok(blocks, size, live, regions, large, nodes) && Bases(before) == Bases(blocks)
  {
    SameBases(before, blocks);
  }

  lemma Appended(blocks: seq<Block>, size: nat, live: map<int, nat>, regions: seq<Region>, large: seq<Large>, nodes: seq<nat>,
                 b: Block, n: nat)
    requires Ok(blocks, size, live, regions, large, nodes) && blocks != []
    requires b.base in live && live[b.base] == size && b.base !in Bases(blocks) + Allocs(large)
    requires b.last == b.base + DATA_HEADER + n && b.last <= b.base + size
    ensures Ok(blocks + [b], size, live, regions + [Region(b.base + DATA_HEADER, n, |blocks|)], large, nodes)
    ensures Bases(blocks + [b]) == Bases(blocks) + {b.base}
  {
    var r := Region(b.base + DATA_HEADER, n, |blocks|);
    BlocksGrow(blocks, size, live, b);
    RegionsGrow(blocks, blocks + [b], regions, |blocks|, r.base, n);
    NodesKept(regions, regions + [r], large, nodes);
    assert forall i | 0 <= i < |large| && large[i].alloc != NULL :: large[i].alloc in Allocs(large);
  }

  lemma Fresh(before: map<int, nat>, live: map<int, nat>, p: int, blocks: seq<Block>, size: nat,
              regions: seq<Region>, large: seq<Large>, nodes: seq<nat>)
    requires Ok(blocks, size, before, regions, large, nodes) && p !in before && p in live && live == before[p := live[p]]
    ensures Ok(blocks, size, live, regions, large, nodes) && p !in Bases(blocks) && p !in Allocs(large)
    ensures forall owned | owned == Bases(blocks) + Allocs(large) ::
              before - owned == live - (owned + {p}) && before - owned == (live - owned) - {p}
  {
  }

  lemma AlignedInBlock(base: int, size: nat, last: int)
    requires base % MALLOC_ALIGNMENT == 0 && size % ALIGNMENT == 0 && last <= base + size
    ensures AlignUp(last, ALIGNMENT) <= base + size
  {
    var x, y, z := base / MALLOC_ALIGNMENT, size / ALIGNMENT, AlignUp(last, ALIGNMENT) / ALIGNMENT;
    assert base + size == 8 * (2 * x + y) && AlignUp(last, ALIGNMENT) == 8 * z;
  }

  lemma BlockStart(base: int)
    requires base % MALLOC_ALIGNMENT == 0
    ensures AlignUp(base + DATA_HEADER, ALIGNMENT) == base + DATA_HEADER && (base + DATA_HEADER) % ALIGNMENT == 0
  {
    var k := base / MALLOC_ALIGNMENT;
    assert base + DATA_HEADER == 8 * (2 * k + 4) && (base + DATA_HEADER + 7) / 8 == 2 * k + 4;
  }

  const TRIES := 5

  /** The first empty node among the first five, or where that search ends. */
  function FirstEmpty(large: seq<Large>, l: nat): (e: nat)
    requires l <= |large| && l <= TRIES
    ensures l <= e <= |large| && e <= TRIES
    ensures forall i | l <= i < e :: large[i].alloc != NULL
    ensures e < |large| && e < TRIES ==> large[e].alloc == NULL
    decreases |large| - l
  {
    if l < |large| && l < TRIES && large[l].alloc != NULL then FirstEmpty(large, l + 1) else l
  }

  /** So a node is used again exactly when one of the first five is empty, and then the first of them. */
  lemma ReusedExactly(large: seq<Large>)
    ensures var e := FirstEmpty(large, 0);
            && (e < |large| && e < TRIES <==> exists i :: 0 <= i < |large| && i < 5 && large[i].alloc == NULL)
            && (e < |large| && e < TRIES ==> large[e].alloc == NULL && forall i | 0 <= i < e :: large[i].alloc != NULL)
  {
    var e := FirstEmpty(large, 0);
    if i :| 0 <= i < |large| && i < 5 && large[i].alloc == NULL {
      assert e <= i;
    }
  }

  lemma BlocksApartFromLarge(blocks: seq<Block>, large: seq<Large>, live: map<int, nat>)
    requires AllocsOk(blocks, large, live)
    ensures forall i | 0 <= i < |blocks| :: blocks[i].base !in Allocs(large)
  {
    assert forall i | 0 <= i < |blocks| :: blocks[i].base in Bases(blocks);
  }

  class NgxPool {
    const heap: Heap
    const size: nat
    const max: nat
    var blocks: seq<Block>
    var current: nat
    var large: seq<Large>
    ghost var regions: seq<Region>
    ghost var nodes: seq<nat>

    ghost predicate Valid()
      reads this, heap
    {
      && heap.Valid()
      && SizesOk(size, max)
      && Ok(blocks, size, heap.live, regions, large, nodes)
      && SkipOk(blocks, current)
    }

    /** What the pool holds of the heap: its blocks and its large allocations. */
    ghost function Owned(): set<int>
      reads this
    {
      Bases(blocks) + Allocs(large)
    }

    /** The rest of the heap. */
    ghost function Rest(): map<int, nat>
      reads this, heap
    {
      heap.live - Owned()
    }

    /** ngx_create_pool once its block is there. */
    constructor (heap: Heap, size: nat, base: int)
      requires heap.Valid() && base in heap.live && heap.live[base] == size
      requires size % ALIGNMENT == 0 && POOL_HEADER <= size
      ensures Valid() && this.heap == heap && this.size == size
      ensures regions == [] && large == [] && Owned() == {base}
      ensures current == 0 && blocks == [Block(base, base + POOL_HEADER, 0)]
    {
      this.heap, this.size := heap, size;
      max := if size - POOL_HEADER < MAX_ALLOC_FROM_POOL then size - POOL_HEADER else MAX_ALLOC_FROM_POOL;
      blocks := [Block(base, base + POOL_HEADER, 0)];
      current, large, regions, nodes := 0, [], [], [];
      new;
      assert blocks[0].base in Bases(blocks) && Allocs(large) == {};
      assert Bases(blocks) == {base};
    }

    // The search of ngx_palloc_small: the first block from current on with room, and the place in it.
    method Search(n: nat, align: bool) returns (p: nat, m: int)
      requires Valid()
      ensures p == FirstFit(blocks, size, current, n, align)
      ensures p < |blocks| ==> m == Place(blocks[p], align)
    {
      p, m := current, NULL;
      while p < |blocks|
        invariant current <= p <= |blocks|
        invariant FirstFit(blocks, size, current, n, align) == FirstFit(blocks, size, p, n, align)
      {
        m := blocks[p].last;
        if align {
          m := AlignUp(m, ALIGNMENT);
        }
        AlignedFits(p);
        if blocks[p].base + size - m >= n {
          return;
        }
        p := p + 1;
      }
    }

    /** First fit from current on; a new block when there is no room. */
    method PallocSmall(n: nat, align: bool) returns (m: int)
      requires Valid() && DATA_HEADER + n <= size
      modifies heap, this`blocks, this`current, this`regions
      ensures Valid() && Rest() == old(Rest())
      ensures m == NULL ==> regions == old(regions) && blocks == old(blocks) && heap.live == old(heap.live)
      ensures m != NULL ==> regions == old(regions) + [Region(m, n, FirstFit(old(blocks), size, old(current), n, align))]
      ensures m != NULL && align ==> m % ALIGNMENT == 0
      ensures if SomeRoom(old(blocks), size, old(current), n, align)
              then FromRoom(old(blocks), old(current), n, align, m) && heap.live == old(heap.live) && heap.asked == old(heap.asked)
              else NewBlock(old(blocks), old(current), old(heap.asked), m, n)
    {
      RoomIsFirstFit(blocks, size, current, n, align);
      var p;
      p, m := Search(n, align);
      if p < |blocks| {
        TakeRoom(p, m, n, align);
      } else {
        m := PallocBlock(n);
      }
    }

    method TakeRoom(p: nat, m: int, n: nat, align: bool)
      requires Valid() && current <= p < |blocks| && FirstRoom(blocks, size, current, n, align, p) && m == Place(blocks[p], align)
      modifies this`blocks, this`regions
      ensures Valid() && Rest() == old(Rest()) && regions == old(regions) + [Region(m, n, p)]
      ensures FromRoom(old(blocks), old(current), n, align, m)
    {
      AlignedFits(p);
      ghost var before := blocks;
      HandOut(p, m, n);
      assert FirstRoom(before, size, current, n, align, p);
    }

    /** The n bytes at m are the next ones of the first block with room. */
    ghost predicate FromRoom(before: seq<Block>, start: nat, n: nat, align: bool, m: int)
      reads this
    {
      && m != NULL && current == start
      && exists i :: start <= i < |before| && FirstRoom(before, size, start, n, align, i)
           && m == Place(before[i], align) && blocks == before[i := before[i].(last := m + n)]
    }

    /** A new block was asked for, and if malloc gave it, is behind the others with the n bytes at m behind its header. */
    ghost predicate NewBlock(before: seq<Block>, start: nat, asked: seq<Answer>, m: int, n: nat)
      requires start < |before|
      reads this, heap
    {
      if m == NULL then heap.asked == asked + [Answer(size, NULL)] && blocks == before
      else
        && heap.asked == asked + [Answer(size, m - 32)] && m - 32 != NULL
        && blocks == Bumped(before, start, |before| - 1) + [Block(m - 32, m + n, 0)]
    }

    // An aligned last never passes the end of its block, so the subtraction of the search cannot wrap.
    lemma AlignedFits(p: nat)
      requires Valid() && p < |blocks|
      ensures 0 < blocks[p].last <= AlignUp(blocks[p].last, ALIGNMENT) <= blocks[p].base + size
    {
      AlignedInBlock(blocks[p].base, size, blocks[p].last);
    }

    // [m, m + n) of block p is handed out.
    method HandOut(p: nat, m: int, n: nat)
      requires Valid() && p < |blocks| && blocks[p].last <= m && m + n <= blocks[p].base + size
      modifies this`blocks, this`regions
      ensures Valid() && regions == old(regions) + [Region(m, n, p)] && Rest() == old(Rest())
      ensures blocks == old(blocks)[p := old(blocks)[p].(last := m + n)]
    {
      ghost var before := blocks;
      blocks := blocks[p := blocks[p].(last := m + n)];
      assert forall i | 0 <= i < |blocks| :: blocks[i].base == before[i].base && blocks[i].failed == before[i].failed;
      SameBases(before, blocks);
      RegionsGrow(before, blocks, regions, p, m, n);
      NodesKept(regions, regions + [Region(m, n, p)], large, nodes);
      regions := regions + [Region(m, n, p)];
    }

    /** A fresh block for n bytes; the blocks searched in vain count one more failure. */
    method PallocBlock(n: nat) returns (m: int)
      requires Valid() && DATA_HEADER + n <= size
      modifies heap, this`blocks, this`current, this`regions
      ensures Valid() && Rest() == old(Rest())
      ensures m == NULL ==> regions == old(regions) && blocks == old(blocks) && heap.live == old(heap.live)
      ensures m != NULL ==> regions == old(regions) + [Region(m, n, |old(blocks)|)] && m % ALIGNMENT == 0
      ensures NewBlock(old(blocks), old(current), old(heap.asked), m, n)
    {
      var base := heap.Malloc(size);
      if base == NULL {
        return NULL;
      }
      Fresh(old(heap.live), heap.live, base, blocks, size, regions, large, nodes);
      BlockStart(base);
      m := AlignUp(base + DATA_HEADER, ALIGNMENT);
      LinkBlock(base, m, n);
    }

    // The block at base is counted as needed and linked, its first n bytes handed out.
    method LinkBlock(base: int, m: int, n: nat)
      requires Valid() && base in heap.live && heap.live[base] == size && base !in Owned()
      requires m == base + DATA_HEADER && DATA_HEADER + n <= size
      modifies this`blocks, this`current, this`regions
      ensures Valid() && regions == old(regions) + [Region(m, n, |old(blocks)|)] && Owned() == old(Owned()) + {base}
      ensures blocks == Bumped(old(blocks), old(current), |old(blocks)| - 1) + [Block(base, m + n, 0)]
    {
      ghost var before, start := blocks, current;
      CountFailures();
      Counted(before, start, current);
      CountedOk(before, blocks, size, heap.live, regions, large, nodes);
      AppendBlock(base, m, n);
    }

    // The loop of ngx_palloc_block over the chain from current to the last block but one.
    method CountFailures()
      requires SkipOk(blocks, current)
      modifies this`blocks, this`current
      ensures blocks == Bumped(old(blocks), old(current), |old(blocks)| - 1)
      ensures SkipTo(old(blocks), old(current), current, |old(blocks)| - 1)
    {
      ghost var before, start := blocks, current;
      var p := current;
      while p + 1 < |blocks|
        invariant |blocks| == |before| && start <= p < |blocks|
        invariant blocks == Bumped(before, start, p)
        invariant SkipTo(before, start, current, p)
      {
        BumpedOne(before, start, p);
        if blocks[p].failed > 4 {
          current := p + 1;
        }
        blocks := blocks[p := blocks[p].(failed := blocks[p].failed + 1)];
        p := p + 1;
      }
    }

    // Links the block at base behind the others and hands its first n bytes out.
    method AppendBlock(base: int, m: int, n: nat)
      requires heap.Valid() && base in heap.live && heap.live[base] == size
      requires base !in Owned() && m == base + DATA_HEADER && DATA_HEADER + n <= size
      requires SizesOk(size, max) && Ok(blocks, size, heap.live, regions, large, nodes)
      requires blocks != [] && SkipOk(blocks + [Block(0, 0, 0)], current)
      modifies this`blocks, this`regions
      ensures Valid() && regions == old(regions) + [Region(m, n, |old(blocks)|)]
      ensures blocks == old(blocks) + [Block(base, m + n, 0)]
      ensures Owned() == old(Owned()) + {base}
    {
      Appended(blocks, size, heap.live, regions, large, nodes, Block(base, m + n, 0), n);
      SkipIgnoresPlaces(blocks + [Block(0, 0, 0)], blocks + [Block(base, m + n, 0)], current);
      regions := regions + [Region(m, n, |blocks|)];
      blocks := blocks + [Block(base, m + n, 0)];
    }

    // ---------- the public operations ----------

    /** The next bytes with room from current on, a new block, or its own allocation; null when malloc refuses. */
    method Palloc(n: nat) returns (m: int)
      requires Valid()
      modifies heap, this
      ensures Valid() && Rest() == old(Rest())
      ensures m != NULL ==> Granted(old(regions), m, n)
      ensures m != NULL && n <= max ==> m % ALIGNMENT == 0
      ensures old(heap.asked) <= heap.asked && (m == NULL <==> Refused(old(heap.asked), heap.asked))
      ensures n <= max && SomeRoom(old(blocks), size, old(current), n, true) ==>
                FromRoom(old(blocks), old(current), n, true, m) && heap.live == old(heap.live) && heap.asked == old(heap.asked)
      ensures n <= max && !SomeRoom(old(blocks), size, old(current), n, true) ==>
                NewBlock(old(blocks), old(current), old(heap.asked), m, n)
    {
      if n <= max {
        m := PallocSmall(n, true);
        SmallRefused(old(blocks), old(current), old(heap.asked), m, n, true);
      } else {
        m := PallocLarge(n);
      }
    }

    /** The same without alignment. */
    method Pnalloc(n: nat) returns (m: int)
      requires Valid()
      modifies heap, this
      ensures Valid() && Rest() == old(Rest())
      ensures m != NULL ==> Granted(old(regions), m, n)
      ensures old(heap.asked) <= heap.asked && (m == NULL <==> Refused(old(heap.asked), heap.asked))
      ensures n <= max && SomeRoom(old(blocks), size, old(current), n, false) ==>
                FromRoom(old(blocks), old(current), n, false, m) && heap.live == old(heap.live) && heap.asked == old(heap.asked)
      ensures n <= max && !SomeRoom(old(blocks), size, old(current), n, false) ==>
                NewBlock(old(blocks), old(current), old(heap.asked), m, n)
    {
      if n <= max {
        m := PallocSmall(n, false);
        SmallRefused(old(blocks), old(current), old(heap.asked), m, n, false);
      } else {
        m := PallocLarge(n);
      }
    }

    lemma SmallRefused(before: seq<Block>, start: nat, asked: seq<Answer>, m: int, n: nat, align: bool)
      requires start < |before|
      requires if SomeRoom(before, size, start, n, align) then FromRoom(before, start, n, align, m) && heap.asked == asked
               else NewBlock(before, start, asked, m, n)
      ensures asked <= heap.asked && (m == NULL <==> Refused(asked, heap.asked))
    {
      if !SomeRoom(before, size, start, n, align) {
        RefusedNow(asked, Answer(size, if m == NULL then NULL else m - DATA_HEADER));
      }
    }

    /** The caller got n bytes at m: a new region of a block, or a live allocation on the large list. */
    ghost predicate Granted(before: seq<Region>, m: int, n: nat)
      reads this, heap
    {
      || (n <= max && |regions| == |before| + 1 && before <= regions && regions[|before|].base == m && regions[|before|].size == n)
      || (max < n && m in Allocs(large) && m in heap.live && heap.live[m] == n && before <= regions)
    }

    /** A large request is its own allocation, entered in one of the first five empty nodes or a new one. */
    method PallocLarge(n: nat) returns (m: int)
      requires Valid()
      modifies heap, this
      ensures Valid() && Rest() == old(Rest()) && old(regions) <= regions
      ensures old(heap.asked) <= heap.asked && (m == NULL <==> Refused(old(heap.asked), heap.asked))
      ensures m != NULL ==> m in Allocs(large) && m in heap.live && heap.live[m] == n && m !in old(heap.live)
      ensures m != NULL ==>
                var e := FirstEmpty(old(large), 0);
                if e < |old(large)| && e < TRIES
                then large == old(large)[e := old(large)[e].(alloc := m)] && regions == old(regions)
                else |large| == |old(large)| + 1 && large[0].alloc == m && large[1..] == old(large)
    {
      m := heap.Malloc(n);
      ghost var asked, answer := old(heap.asked), Answer(n, m);
      RefusedNow(asked, answer);
      if m == NULL {
        return;
      }
      Fresh(old(heap.live), heap.live, m, blocks, size, regions, large, nodes);
      var tried, l := 0, 0;
      while l < |large|
        invariant 0 <= l <= |large| && tried == l <= 4
        invariant FirstEmpty(large, 0) == FirstEmpty(large, l)
        invariant Valid() && large == old(large) && regions == old(regions) && blocks == old(blocks)
        invariant heap.live == old(heap.live)[m := n] && heap.asked == asked + [answer]
      {
        if large[l].alloc == NULL {
          SetAlloc(l, m);
          return;
        }
        if tried > 3 {
          break;
        }
        tried := tried + 1;
        l := l + 1;
      }
      if l < |large| {
        assert l == 4 && FirstEmpty(large, 0) == FirstEmpty(large, 5) == 5;
      }
      m := AddLarge(m);
      RefusedLater(asked, answer, heap.asked);
    }

    method Pmemalign(n: nat, alignment: nat) returns (m: int)
      requires Valid()
      modifies heap, this
      ensures Valid() && Rest() == old(Rest()) && old(regions) <= regions
      ensures old(heap.asked) <= heap.asked && (m == NULL <==> Refused(old(heap.asked), heap.asked))
      ensures m != NULL ==> m in Allocs(large) && m in heap.live && heap.live[m] == n && m !in old(heap.live)
      ensures m != NULL ==> MayReturn(old(heap.live), n, m)
    {
      m := heap.Malloc(n);
      ghost var asked, answer := old(heap.asked), Answer(n, m);
      RefusedNow(asked, answer);
      if m == NULL {
        return;
      }
      Fresh(old(heap.live), heap.live, m, blocks, size, regions, large, nodes);
      m := AddLarge(m);
      RefusedLater(asked, answer, heap.asked);
      RefusedLater(asked, answer, heap.asked);
    }

    // An empty node is used again for p.
    method SetAlloc(l: nat, p: int)
      requires Valid() && l < |large| && large[l].alloc == NULL && p in heap.live && p !in Owned()
      modifies this`large
      ensures Valid() && Owned() == old(Owned()) + {p} && p in Allocs(large)
      ensures large == old(large)[l := old(large)[l].(alloc := p)]
    {
      AllocsFilled(blocks, large, heap.live, l, p);
      ghost var before := large;
      large := large[l := large[l].(alloc := p)];
      SameNodes(regions, before, large, nodes);
    }

    // A new node for p, or p is freed again.
    method AddLarge(p: int) returns (m: int)
      requires Valid() && p in heap.live && p !in Owned()
      modifies heap, this
      ensures Valid() && old(regions) <= regions && Rest() == old(Rest()) - {p}
      ensures old(heap.asked) <= heap.asked && (m == NULL <==> Refused(old(heap.asked), heap.asked))
      ensures m == NULL ==> p !in heap.live && large == old(large)
      ensures m != NULL ==> m == p && p in heap.live && heap.live[p] == old(heap.live)[p]
      ensures m != NULL ==> |large| == |old(large)| + 1 && large[0].alloc == p && large[1..] == old(large)
    {
      var node := NewNode(p);
      m := EnterLarge(node, p, old(regions));
    }

    method EnterLarge(node: int, p: int, ghost before: seq<Region>) returns (m: int)
      requires Valid() && p in heap.live && p !in Owned()
      requires node != NULL ==> node % ALIGNMENT == 0 && NodesOk(before, large, nodes)
      requires node != NULL ==> |regions| == |before| + 1 && before <= regions
      requires node != NULL ==> regions[|before|].base == node && regions[|before|].size == LARGE_NODE
      modifies heap`live, this`large, this`nodes
      ensures Valid() && Rest() == old(Rest()) - {p} && (m == NULL <==> node == NULL)
      ensures m == NULL ==> p !in heap.live && large == old(large)
      ensures m != NULL ==> m == p && heap.live == old(heap.live)
      ensures m != NULL ==> |large| == |old(large)| + 1 && large[0].alloc == p && large[1..] == old(large)
    {
      if node == NULL {
        FreeAgain(p);
        return NULL;
      }
      PrependLarge(node, p, before);
      m := p;
    }

    method NewNode(ghost p: int) returns (node: int)
      requires Valid() && p in heap.live && p !in Owned()
      modifies heap, this`blocks, this`current, this`regions
      ensures Valid() && Rest() == old(Rest())
      ensures p in heap.live && heap.live[p] == old(heap.live)[p] && p !in Owned()
      ensures old(heap.asked) <= heap.asked && (node == NULL <==> Refused(old(heap.asked), heap.asked))
      ensures node == NULL ==> regions == old(regions)
      ensures node != NULL ==> |regions| == |old(regions)| + 1 && old(regions) <= regions
      ensures node != NULL ==> node % ALIGNMENT == 0
      ensures node != NULL ==> regions[|regions| - 1].base == node && regions[|regions| - 1].size == LARGE_NODE
    {
      assert p in Rest() && Rest()[p] == heap.live[p];
      node := PallocSmall(LARGE_NODE, true);
      SmallRefused(old(blocks), old(current), old(heap.asked), node, LARGE_NODE, true);
      assert p in Rest() && Rest()[p] == heap.live[p];
    }

    method FreeAgain(p: int)
      requires Valid() && p in heap.live && p !in Owned()
      modifies heap`live
      ensures Valid() && Rest() == old(Rest()) - {p} && heap.live == old(heap.live) - {p}
    {
      BlocksWithout(blocks, size, heap.live, p);
      AllocsWithout(blocks, large, heap.live, p);
      heap.Free(p);
    }

    method PrependLarge(node: int, p: int, ghost before: seq<Region>)
      requires Valid() && p in heap.live && p !in Owned() && node % ALIGNMENT == 0
      requires NodesOk(before, large, nodes)
      requires |regions| == |before| + 1 && before <= regions
      requires regions[|before|].base == node && regions[|before|].size == LARGE_NODE
      modifies this`large, this`nodes
      ensures Valid() && Owned() == old(Owned()) + {p} && p in Allocs(large)
      ensures |large| == |old(large)| + 1 && large[0].alloc == p && large[1..] == old(large)
    {
      assert regions == before + [regions[|before|]];
      NodesGrow(before, large, nodes, regions[|before|], p);
      AllocsGrow(blocks, large, heap.live, Large(node, p));
      large := [Large(node, p)] + large;
      nodes := [|before|] + nodes;
    }

    /** Frees the large allocation p; NULL empties nothing and is found exactly when some node is empty. */
    method Pfree(p: int) returns (ret: int)
      requires Valid()
      modifies heap, this`large
      ensures Valid()
      ensures ret == 0 || ret == NOT_LARGE
      ensures p != NULL ==> (ret == 0 <==> p in old(Allocs(large)))
      ensures p == NULL ==> (ret == 0 <==> exists i | 0 <= i < |large| :: large[i].alloc == NULL)
      ensures ret == 0 && p != NULL ==> heap.live == old(heap.live) - {p} && Owned() == old(Owned()) - {p}
      ensures ret != 0 || p == NULL ==> heap.live == old(heap.live) && large == old(large)
    {
      var l := 0;
      while l < |large|
        invariant 0 <= l <= |large|
        invariant Valid() && large == old(large) && heap.live == old(heap.live)
        invariant forall i | 0 <= i < l :: large[i].alloc != p
      {
        if large[l].alloc == p {
          if p != NULL {
            ClearAlloc(l);
          }
          return 0;
        }
        l := l + 1;
      }
      return NOT_LARGE;
    }

    method ClearAlloc(l: nat)
      requires Valid() && l < |large| && large[l].alloc != NULL
      modifies heap, this`large
      ensures Valid() && heap.live == old(heap.live) - {old(large)[l].alloc}
      ensures Owned() == old(Owned()) - {old(large)[l].alloc}
    {
      AllocsCleared(blocks, large, heap.live, l);
      ghost var before := large;
      BlocksWithout(blocks, size, heap.live, large[l].alloc);
      heap.Free(large[l].alloc);
      large := large[l := large[l].(alloc := NULL)];
      SameNodes(regions, before, large, nodes);
    }

    // The loop of reset and destroy over the large list.
    method FreeLarge()
      requires Valid()
      modifies heap
      ensures heap.Valid() && heap.live == old(heap.live) - Allocs(large)
    {
      var l := 0;
      while l < |large|
        invariant 0 <= l <= |large| && heap.Valid()
        invariant heap.live == old(heap.live) - Allocs(large[..l])
      {
        AllocsPush(large, l);
        if large[l].alloc != NULL {
          heap.Free(large[l].alloc);
        }
        l := l + 1;
      }
      assert large[..l] == large;
    }

    lemma AllocsPush(large: seq<Large>, l: nat)
      requires l < |large|
      requires forall i, j | 0 <= i < j < |large| && large[i].alloc != NULL :: large[i].alloc != large[j].alloc
      ensures Allocs(large[..l + 1]) == Allocs(large[..l]) + (if large[l].alloc == NULL then {} else {large[l].alloc})
      ensures large[l].alloc !in Allocs(large[..l])
    {
      assert large[..l + 1][l] == large[l];
      assert forall i | 0 <= i < l :: large[..l + 1][i] == large[..l][i] == large[i];
    }

    /** Reset: exactly the large allocations are freed, the blocks are empty again. */
    method Reset()
      requires Valid()
      modifies heap, this
      ensures Valid() && regions == [] && large == [] && current == 0 && |blocks| == |old(blocks)|
      ensures forall i | 0 <= i < |blocks| :: blocks[i].base == old(blocks)[i].base
      ensures heap.live == old(heap.live) - old(Allocs(large)) && Owned() == old(Bases(blocks))
      ensures forall i | 0 <= i < |blocks| :: blocks[i].last == blocks[i].base + POOL_HEADER && blocks[i].failed == 0
    {
      FreeLarge();
      ghost var before := blocks;
      var p := 0;
      while p < |blocks|
        invariant 0 <= p <= |blocks| == |before| && large == old(large)
        invariant heap.Valid() && heap.live == old(heap.live) - Allocs(large)
        invariant forall i | 0 <= i < |blocks| :: blocks[i].base == before[i].base
        invariant forall i | 0 <= i < p :: blocks[i] == Block(before[i].base, before[i].base + POOL_HEADER, 0)
      {
        blocks := blocks[p := Block(blocks[p].base, blocks[p].base + POOL_HEADER, 0)];
        p := p + 1;
      }
      SameBases(before, blocks);
      BlocksApartFromLarge(before, large, old(heap.live));
      current, large, regions, nodes := 0, [], [], [];
    }

    /** Destroy: everything the pool owns is freed, once, and nothing else. */
    method Destroy()
      requires Valid()
      modifies heap
      ensures heap.Valid() && heap.live == old(Rest())
    {
      assert forall i | 0 <= i < |blocks| :: blocks[i].base in Bases(blocks) && blocks[i].base !in Allocs(large);
      FreeLarge();
      var p := 0;
      while p < |blocks|
        invariant 0 <= p <= |blocks| && heap.Valid()
        invariant heap.live == old(heap.live) - Allocs(large) - Bases(blocks[..p])
      {
        BasesPush(blocks, p);
        heap.Free(blocks[p].base);
        p := p + 1;
      }
      assert blocks[..p] == blocks;
    }

    lemma BasesPush(blocks: seq<Block>, p: nat)
      requires p < |blocks| && forall i, j | 0 <= i < j < |blocks| :: blocks[i].base != blocks[j].base
      ensures Bases(blocks[..p + 1]) == Bases(blocks[..p]) + {blocks[p].base} && blocks[p].base !in Bases(blocks[..p])
    {
      assert blocks[..p + 1][p] == blocks[p];
      assert forall i | 0 <= i < p :: blocks[..p + 1][i] == blocks[..p][i] == blocks[i];
    }
  }

  /** ngx_create_pool: the first block, or null when there is no memory. */
  method CreatePool(heap: Heap, size: nat) returns (pool: NgxPool?)
    requires heap.Valid() && size % ALIGNMENT == 0 && POOL_HEADER <= size
    modifies heap
    ensures heap.Valid()
    ensures |heap.asked| == |old(heap.asked)| + 1 && old(heap.asked) <= heap.asked && heap.asked[|old(heap.asked)|].size == size
    ensures pool == null <==> heap.asked[|old(heap.asked)|].p == NULL
    ensures pool == null ==> heap.live == old(heap.live)
    ensures pool != null ==> pool.current == 0 && pool.max == if size - 64 < 4095 then size - 64 else 4095
    ensures pool != null ==> pool.blocks == [Block(heap.asked[|old(heap.asked)|].p, heap.asked[|old(heap.asked)|].p + 64, 0)]
    ensures pool != null ==> fresh(pool) && pool.Valid() && pool.heap == heap && pool.size == size
    ensures pool != null ==> pool.Rest() == old(heap.live) && pool.regions == [] && pool.large == []
  {
    var base := heap.Malloc(size);
    if base == NULL {
      return null;
    }
    pool := new NgxPool(heap, size, base);
  }

  datatype Request =
    | Aligned(n: nat)
    | Unaligned(n: nat)
    | Memalign(n: nat, alignment: nat)
    | FreeLarge(p: int)
    | StartOver

  /** Whatever is asked of a pool, from its creation to its end the heap loses nothing and keeps nothing. */
  method WholeLife(heap: Heap, size: nat, requests: seq<Request>)
    requires heap.Valid() && size % ALIGNMENT == 0 && POOL_HEADER <= size
    modifies heap
    ensures heap.Valid() && heap.live == old(heap.live)
  {
    var pool := CreatePool(heap, size);
    if pool == null {
      return;
    }
    var i := 0;
    while i < |requests|
      invariant 0 <= i <= |requests|
      invariant fresh(pool) && pool.heap == heap && pool.Valid() && pool.Rest() == old(heap.live)
    {
      Serve(pool, requests[i]);
      i := i + 1;
    }
    pool.Destroy();
  }

  method FreeOne(pool: NgxPool, p: int)
    requires pool.Valid()
    modifies pool, pool.heap
    ensures pool.Valid() && pool.Rest() == old(pool.Rest())
  {
    var ret := pool.Pfree(p);
  }

  method Serve(pool: NgxPool, request: Request)
    requires pool.Valid()
    modifies pool, pool.heap
    ensures pool.Valid() && pool.Rest() == old(pool.Rest())
  {
    match request {
      case Aligned(n) => var m := pool.Palloc(n);
      case Unaligned(n) => var m := pool.Pnalloc(n);
      case Memalign(n, alignment) => var m := pool.Pmemalign(n, alignment);
      case FreeLarge(p) => FreeOne(pool, p);
      case StartOver => pool.Reset();
    }
  }
}
