/**
 The allocator of src/heap.c over a word-addressed memory: `size`, `tag` and
 `next` are the fields of the node at an address, `firstAvail` the list head of
 the heap with a given handle.  `tiles` is the ghost picture of each region.
 */
module Heap {
  import opened HeapTiles

  const AVAIL_MAGIC := 0xAA55_AA55
  const NULL := 0

  datatype AllocResult = Block(mem: int) | NoMemory | OutOfKernelHeap

  datatype FreeResult = Freed | DoubleFree

  datatype Region = Region(lo: int, hi: int) {
    ghost predicate Holds(a: int) { lo <= a < hi }
  }

  /** The node fields of the whole memory. */
  datatype Nodes = Nodes(size: map<int, int>, tag: map<int, int>, next: map<int, int>)

  ghost function AddrAt(fs: seq<Tile>, k: nat): int
  {
    if k < |fs| then fs[k].addr else NULL
  }

  ghost predicate LinkOk(fs: seq<Tile>, k: nat, next: map<int, int>)
    requires k < |fs|
  {
    fs[k].addr in next && next[fs[k].addr] == AddrAt(fs, k + 1)
  }

  /** The chain starting at `head` visits exactly the tiles of `fs`. */
  ghost predicate Linked(head: int, fs: seq<Tile>, next: map<int, int>)
  {
    head == AddrAt(fs, 0) && forall k: nat | k < |fs| :: LinkOk(fs, k, next)
  }

  ghost predicate HeaderOk(h: int, t: Tile, m: Nodes)
  {
    && t.addr in m.size && m.size[t.addr] == t.size
    && t.addr in m.tag && m.tag[t.addr] == (if t.free then AVAIL_MAGIC else h)
  }

  /** Headers in memory agree with the picture. */
  ghost predicate Headers(h: int, ts: seq<Tile>, m: Nodes)
  {
    forall t | t in ts :: HeaderOk(h, t, m)
  }

  /** One heap: its picture is well tiled, and memory holds that picture. */
  ghost predicate HeapState(h: int, r: Region, ts: seq<Tile>, first: int, m: Nodes)
  {
    && h != NULL && h != AVAIL_MAGIC && 0 < r.lo < r.hi
    && WellTiled(ts, r.lo, r.hi) && Headers(h, ts, m)
    && Linked(first, Frees(ts), m.next)
  }

  /** As `HeapState`, but with neighbouring free tiles allowed. */
  ghost predicate RowState(h: int, r: Region, ts: seq<Tile>, first: int, m: Nodes)
  {
    && h != NULL && h != AVAIL_MAGIC && 0 < r.lo < r.hi
    && Tiled(ts, r.lo, r.hi) && Headers(h, ts, m)
    && Linked(first, Frees(ts), m.next)
  }

  ghost predicate SameOutside<T>(m: map<int, T>, m': map<int, T>, r: Region)
  {
    forall a | a in m && !r.Holds(a) :: a in m' && m'[a] == m[a]
  }

  ghost predicate OnlyInside(m: Nodes, m': Nodes, r: Region)
  {
    SameOutside(m.size, m'.size, r) && SameOutside(m.tag, m'.tag, r) && SameOutside(m.next, m'.next, r)
  }

  ghost predicate Apart(r: Region, s: Region) { r.hi <= s.lo || s.hi <= r.lo }

  /** A heap is not affected by writes in another heap's region. */
  lemma HeapFrame(h: int, r: Region, ts: seq<Tile>, first: int, m: Nodes, m': Nodes, s: Region)
    requires HeapState(h, r, ts, first, m) && Apart(r, s) && OnlyInside(m, m', s)
    ensures HeapState(h, r, ts, first, m')
  {
    hide WellTiled, Frees;
    TilesStayInside(ts, r);
    forall t | t in ts ensures HeaderOk(h, t, m') {
      assert HeaderOk(h, t, m);
    }
    var fs := Frees(ts);
    forall k: nat | k < |fs| ensures LinkOk(fs, k, m'.next) {
      assert LinkOk(fs, k, m.next);
      assert fs[k] in fs;
    }
  }

  lemma TilesStayInside(ts: seq<Tile>, r: Region)
    requires WellTiled(ts, r.lo, r.hi)
    ensures forall t | t in ts :: r.Holds(t.addr)
    ensures forall t | t in Frees(ts) :: r.Holds(t.addr)
  {
    TilesInside(ts, r.lo, r.hi);
    FreesAreTiles(ts);
  }

  lemma FreshHeap(h: int, lo: int, hi: int, m: Nodes)
    requires h != NULL && h != AVAIL_MAGIC && 0 < lo && lo % 8 == 0 && hi - lo >= NODE_HEADER
    requires HeaderOk(h, Tile(lo, hi - lo, true), m) && lo in m.next && m.next[lo] == NULL
    ensures HeapState(h, Region(lo, hi), [Tile(lo, hi - lo, true)], lo, m)
  {
    var t := Tile(lo, hi - lo, true);
    TiledOne(t, lo, hi);
    FreesOne(t);
    assert LinkOk([t], 0, m.next);
  }

  // ----- linking

  ghost function FirstOf(fs: seq<Tile>): int { AddrAt(fs, 0) }

  ghost predicate Keeps(x: int, m: map<int, int>, m': map<int, int>)
  {
    x in m ==> x in m' && m'[x] == m[x]
  }

  /** Replacing the stretch `was` of a chain by `mid` needs one link in and one link out. */
  lemma SpliceLinks(a: seq<Tile>, was: seq<Tile>, b: seq<Tile>, mid: seq<Tile>,
                    first: int, next: map<int, int>, first': int, next': map<int, int>)
    requires Linked(first, a + was + b, next) && |mid| <= 1
    requires forall k | 0 <= k < |a| - 1 :: Keeps(a[k].addr, next, next')
    requires forall k | 0 <= k < |b| :: Keeps(b[k].addr, next, next')
    requires mid != [] ==> mid[0].addr in next' && next'[mid[0].addr] == FirstOf(b)
    requires if a == [] then first' == FirstOf(mid + b)
             else first' == first && a[|a| - 1].addr in next' && next'[a[|a| - 1].addr] == FirstOf(mid + b)
    ensures Linked(first', a + mid + b, next')
  {
    var fs, fs' := a + was + b, a + mid + b;
    if a != [] {
      assert fs[0] == a[0] == fs'[0];
    }
    forall k: nat | k < |fs'| ensures LinkOk(fs', k, next') {
      if k < |a| - 1 {
        assert LinkOk(fs, k, next);
      } else if k == |a| - 1 {
      } else if k < |a| + |mid| {
      } else {
        var j := k - |a| - |mid|;
        assert fs'[k] == b[j] && fs[|a| + |was| + j] == b[j];
        assert LinkOk(fs, |a| + |was| + j, next);
      }
    }
  }

  /** A tile's header survives writes to other tiles. */
  lemma HeadersKept(h: int, ts: seq<Tile>, m: Nodes, m': Nodes)
    requires Headers(h, ts, m)
    requires forall t | t in ts :: Keeps(t.addr, m.size, m'.size) && Keeps(t.addr, m.tag, m'.tag)
    ensures Headers(h, ts, m')
  {
    forall t | t in ts ensures HeaderOk(h, t, m') {
      assert HeaderOk(h, t, m);
    }
  }

  lemma HeadersJoin(h: int, a: seq<Tile>, b: seq<Tile>, m: Nodes)
    ensures Headers(h, a + b, m) <==> Headers(h, a, m) && Headers(h, b, m)
  {
    assert forall t | t in a :: t in a + b;
    assert forall t | t in b :: t in a + b;
  }

  // ----- the writes of HeapAlloc and HeapFree, on values

  ghost function LastOf(fs: seq<Tile>): int { if fs == [] then NULL else fs[|fs| - 1].addr }

  /** Setting the link out of `prev`, or the list head when there is no `prev`. */
  function LinkFrom(prev: int, next: map<int, int>, target: int): map<int, int>
  {
    if prev == NULL then next else next[prev := target]
  }

  /** Addresses of a row are distinct, positive and inside the region. */
  lemma RowAddresses(pre: seq<Tile>, t: Tile, post: seq<Tile>, r: Region)
    requires Tiled(pre + [t] + post, r.lo, r.hi) && 0 < r.lo
    ensures t.Good() && r.lo <= t.addr && t.End() <= r.hi
    ensures forall u | u in pre :: r.Holds(u.addr) && u.End() <= t.addr && u.Good()
    ensures forall u | u in post :: r.Holds(u.addr) && t.End() <= u.addr && u.Good()
    ensures forall u | u in Frees(pre) :: u in pre
    ensures forall u | u in Frees(post) :: u in post
    ensures Increasing(Frees(pre)) && Increasing(Frees(post))
  {
    TiledAround(pre, t, post, r.lo, r.hi);
    TilesInside(pre, r.lo, t.addr);
    TilesInside(post, t.End(), r.hi);
    FreesAreTiles(pre);
    FreesAreTiles(post);
    FreesIncreasing(pre, r.lo, t.addr);
    FreesIncreasing(post, t.End(), r.hi);
  }

  /** What the allocation writes: split or not, then unlink, then mark. */
  ghost predicate GiveOutWrites(h: int, t: Tile, n: int, prev: int, rest: int, first: int, m: Nodes, first': int, m': Nodes)
  {
    var now, split := t.addr, t.size - n >= MIN_NODE_SIZE;
    var link := if split then now + n else rest;
    && m'.size == (if split then m.size[now + n := t.size - n][now := n] else m.size)
    && m'.tag == (if split then m.tag[now + n := AVAIL_MAGIC] else m.tag)[now := h]
    && m'.next == LinkFrom(prev, if split then m.next[now + n := rest] else m.next, link)
    && first' == (if prev == NULL then link else first)
  }

  lemma GiveOutLinks(a: seq<Tile>, t: Tile, b: seq<Tile>, n: int, h: int, first: int, m: Nodes, first': int, m': Nodes)
    requires Linked(first, a + [t] + b, m.next) && t.size >= n > 0
    requires forall u | u in a :: 0 < u.addr < t.addr
    requires forall u | u in b :: t.End() <= u.addr
    requires Increasing(a)
    requires GiveOutWrites(h, t, n, LastOf(a), FirstOf(b), first, m, first', m')
    ensures Linked(first', a + Pieces(t, n)[1..] + b, m'.next)
  {
    forall k | 0 <= k < |a| - 1 ensures Keeps(a[k].addr, m.next, m'.next) {
      assert a[k] in a && a[k].addr < a[|a| - 1].addr;
    }
    forall k | 0 <= k < |b| ensures Keeps(b[k].addr, m.next, m'.next) {
      assert b[k] in b;
      assert a != [] ==> a[|a| - 1] in a;
    }
    if a != [] {
      assert a[|a| - 1] in a;
    }
    SpliceLinks(a, [t], b, Pieces(t, n)[1..], first, m.next, first', m'.next);
  }

  lemma GiveOutHeaders(pre: seq<Tile>, t: Tile, post: seq<Tile>, n: int, h: int, m: Nodes, prev: int, rest: int,
                       first: int, first': int, m': Nodes)
    requires Headers(h, pre + [t] + post, m) && t.size >= n > 0 && h != AVAIL_MAGIC
    requires forall u | u in pre :: u.addr < t.addr
    requires forall u | u in post :: t.End() <= u.addr
    requires GiveOutWrites(h, t, n, prev, rest, first, m, first', m')
    ensures Headers(h, pre + Pieces(t, n) + post, m')
  {
    var ps := Pieces(t, n);
    HeadersJoin(h, pre + [t], post, m);
    HeadersJoin(h, pre, [t], m);
    assert HeaderOk(h, t, m) by { assert t in [t]; }
    HeadersKept(h, pre, m, m');
    HeadersKept(h, post, m, m');
    assert Headers(h, ps, m');
    HeadersJoin(h, pre + ps, post, m');
    HeadersJoin(h, pre, ps, m');
  }

  lemma GiveOutInside(t: Tile, n: int, h: int, r: Region, prev: int, rest: int, first: int, m: Nodes, first': int, m': Nodes)
    requires r.lo <= t.addr && t.End() <= r.hi && 0 < n && t.size > 0 && (prev == NULL || r.Holds(prev))
    requires GiveOutWrites(h, t, n, prev, rest, first, m, first', m')
    ensures OnlyInside(m, m', r)
  {
  }

  lemma GiveOut(h: int, r: Region, ts: seq<Tile>, first: int, m: Nodes, i: nat, n: int, first': int, m': Nodes)
    requires HeapState(h, r, ts, first, m) && i < |ts| && Fits(ts[i], n) && n >= MIN_NODE_SIZE && n % 8 == 0
    requires GiveOutWrites(h, ts[i], n, LastOf(Frees(ts[..i])), FirstOf(Frees(ts[i + 1..])), first, m, first', m')
    ensures HeapState(h, r, Allocate(ts, i, n), first', m') && OnlyInside(m, m', r)
  {
    var pre, t, post := ts[..i], ts[i], ts[i + 1..];
    SplitAt(ts, i);
    RowAddresses(pre, t, post, r);
    AllocateWellTiled(ts, r.lo, r.hi, i, n);
    FreesAround(pre, t, post);
    FreesConcat(pre + Pieces(t, n), post);
    FreesConcat(pre, Pieces(t, n));
    FreesPieces(t, n);
    hide WellTiled, Frees, Headers, Tiled, GiveOutWrites, Linked, OnlyInside;
    assert Frees(pre) != [] ==> Frees(pre)[|Frees(pre)| - 1] in Frees(pre);
    GiveOutLinks(Frees(pre), t, Frees(post), n, h, first, m, first', m');
    GiveOutHeaders(pre, t, post, n, h, m, LastOf(Frees(pre)), FirstOf(Frees(post)), first, first', m');
    GiveOutInside(t, n, h, r, LastOf(Frees(pre)), FirstOf(Frees(post)), first, m, first', m');
  }

  lemma FreesPieces(t: Tile, n: int)
    ensures Frees(Pieces(t, n)) == Pieces(t, n)[1..]
  {
    var ps := Pieces(t, n);
    if |ps| == 2 {
      assert ps == [ps[0]] + [ps[1]];
      FreesConcat([ps[0]], [ps[1]]);
      FreesOne(ps[0]);
      FreesOne(ps[1]);
    } else {
      FreesOne(ps[0]);
    }
  }

  /** What putting a node back on the list writes, before any merging. */
  ghost predicate InsertWrites(node: int, prev: int, now: int, first: int, m: Nodes, first': int, m': Nodes)
  {
    && m'.size == m.size && m'.tag == m.tag[node := AVAIL_MAGIC]
    && m'.next == LinkFrom(prev, m.next[node := now], node)
    && first' == (if prev == NULL then node else first)
  }

  lemma InsertLinks(a: seq<Tile>, t: Tile, b: seq<Tile>, first: int, m: Nodes, first': int, m': Nodes)
    requires Linked(first, a + b, m.next)
    requires forall u | u in a :: 0 < u.addr < t.addr
    requires forall u | u in b :: t.addr < u.addr
    requires Increasing(a)
    requires InsertWrites(t.addr, LastOf(a), FirstOf(b), first, m, first', m')
    ensures Linked(first', a + [t] + b, m'.next)
  {
    forall k | 0 <= k < |a| - 1 ensures Keeps(a[k].addr, m.next, m'.next) {
      assert a[k] in a && a[k].addr < a[|a| - 1].addr;
    }
    if a != [] {
      assert a[|a| - 1] in a;
    }
    forall k | 0 <= k < |b| ensures Keeps(b[k].addr, m.next, m'.next) {
      assert b[k] in b;
    }
    assert a + [] + b == a + b;
    SpliceLinks(a, [], b, [t], first, m.next, first', m'.next);
  }

  /** Replacing one tile's header leaves the headers of its neighbours. */
  lemma ReplaceHeader(h: int, pre: seq<Tile>, t: Tile, post: seq<Tile>, m: Nodes, t': Tile, m': Nodes)
    requires Headers(h, pre, m) && Headers(h, post, m) && HeaderOk(h, t', m')
    requires forall u | u in pre || u in post :: Keeps(u.addr, m.size, m'.size) && Keeps(u.addr, m.tag, m'.tag)
    ensures Headers(h, pre + [t'] + post, m')
  {
    HeadersKept(h, pre, m, m');
    HeadersKept(h, post, m, m');
    HeadersJoin(h, pre + [t'], post, m');
    HeadersJoin(h, pre, [t'], m');
  }

  lemma HeadersAround(h: int, pre: seq<Tile>, t: Tile, post: seq<Tile>, m: Nodes)
    requires Headers(h, pre + [t] + post, m)
    ensures Headers(h, pre, m) && HeaderOk(h, t, m) && Headers(h, post, m)
  {
    HeadersJoin(h, pre + [t], post, m);
    HeadersJoin(h, pre, [t], m);
    assert t in [t];
  }

  lemma LastIn(fs: seq<Tile>)
    ensures LastOf(fs) == NULL || exists u :: u in fs && u.addr == LastOf(fs)
  {
    if fs != [] {
      assert fs[|fs| - 1] in fs;
    }
  }

  lemma InsertInside(node: int, prev: int, now: int, r: Region, first: int, m: Nodes, first': int, m': Nodes)
    requires InsertWrites(node, prev, now, first, m, first', m') && r.Holds(node) && (prev == NULL || r.Holds(prev))
    ensures OnlyInside(m, m', r)
  {
  }

  lemma InsertHeaders(h: int, pre: seq<Tile>, t: Tile, post: seq<Tile>, prev: int, now: int,
                      first: int, m: Nodes, first': int, m': Nodes)
    requires Headers(h, pre, m) && HeaderOk(h, t, m) && Headers(h, post, m)
    requires forall u | u in pre || u in post :: u.addr != t.addr
    requires InsertWrites(t.addr, prev, now, first, m, first', m')
    ensures Headers(h, pre + [t.(free := true)] + post, m')
  {
    hide Headers;
    ReplaceHeader(h, pre, t, post, m, t.(free := true), m');
  }

  lemma InsertNode(h: int, r: Region, pre: seq<Tile>, t: Tile, post: seq<Tile>, first: int, m: Nodes, first': int, m': Nodes)
    requires RowState(h, r, pre + [t] + post, first, m) && !t.free
    requires InsertWrites(t.addr, LastOf(Frees(pre)), FirstOf(Frees(post)), first, m, first', m')
    ensures RowState(h, r, pre + [t.(free := true)] + post, first', m') && OnlyInside(m, m', r)
  {
    hide Tiled, Frees, Headers, Linked, LastOf, FirstOf, InsertWrites, OnlyInside, HeaderOk, Increasing;
    var t' := t.(free := true);
    RowAddresses(pre, t, post, r);
    TiledAround(pre, t, post, r.lo, r.hi);
    TiledAround(pre, t', post, r.lo, r.hi);
    FreesAround(pre, t, post);
    FreesAround(pre, t', post);
    HeadersAround(h, pre, t, post, m);
    LastIn(Frees(pre));
    InsertInside(t.addr, LastOf(Frees(pre)), FirstOf(Frees(post)), r, first, m, first', m');
    InsertHeaders(h, pre, t, post, LastOf(Frees(pre)), FirstOf(Frees(post)), first, m, first', m');
    assert Frees(pre) + [] + Frees(post) == Frees(pre) + Frees(post);
    InsertLinks(Frees(pre), t', Frees(post), first, m, first', m');
  }

  /** Swallowing the free node `y` that follows the free node `x` in memory. */
  ghost predicate MergeWrites(x: Tile, y: Tile, m: Nodes, m': Nodes)
  {
    && m'.size == m.size[x.addr := x.size + y.size] && m'.tag == m.tag
    && y.addr in m.next && m'.next == m.next[x.addr := m.next[y.addr]]
  }

  lemma MergeLinks(a: seq<Tile>, x: Tile, y: Tile, b: seq<Tile>, first: int, m: Nodes, m': Nodes)
    requires Linked(first, a + [x, y] + b, m.next) && MergeWrites(x, y, m, m')
    requires forall u | u in a :: 0 < u.addr < x.addr
    requires forall u | u in b :: x.addr < u.addr
    ensures Linked(first, a + [Tile(x.addr, x.size + y.size, true)] + b, m'.next)
  {
    var fs := a + [x, y] + b;
    forall k | 0 <= k < |a| - 1 ensures Keeps(a[k].addr, m.next, m'.next) {
      assert a[k] in a;
    }
    forall k | 0 <= k < |b| ensures Keeps(b[k].addr, m.next, m'.next) {
      assert b[k] in b;
    }
    assert LinkOk(fs, |a| + 1, m.next);
    assert b != [] ==> fs[|a| + 2] == b[0];
    if a != [] {
      assert LinkOk(fs, |a| - 1, m.next) && a[|a| - 1] in a;
    }
    SpliceLinks(a, [x, y], b, [Tile(x.addr, x.size + y.size, true)], first, m.next, first, m'.next);
  }

  lemma MergeTiles(pre: seq<Tile>, x: Tile, y: Tile, post: seq<Tile>, lo: int, hi: int)
    requires Tiled(pre + [x] + ([y] + post), lo, hi) && x.free && y.free
    ensures var z := Tile(x.addr, x.size + y.size, true);
            && Tiled(pre + [z] + post, lo, hi)
            && Frees(pre + [x] + ([y] + post)) == Frees(pre) + [x, y] + Frees(post)
            && Frees(pre + [z] + post) == Frees(pre) + [z] + Frees(post)
  {
    hide Tiled, Frees;
    var z := Tile(x.addr, x.size + y.size, true);
    TiledAround(pre, x, [y] + post, lo, hi);
    assert [] + [y] + post == [y] + post;
    TiledAround([], y, post, x.End(), hi);
    TiledEmpty(x.End(), y.addr);
    TiledAround(pre, z, post, lo, hi);
    FreesAround(pre, x, [y] + post);
    FreesConcat([y], post);
    FreesOne(y);
    FreesAround(pre, z, post);
    assert Frees(pre) + [x] + ([y] + Frees(post)) == Frees(pre) + [x, y] + Frees(post);
  }

  lemma MergeNodes(h: int, r: Region, pre: seq<Tile>, x: Tile, y: Tile, post: seq<Tile>, first: int, m: Nodes, m': Nodes)
    requires RowState(h, r, pre + [x] + ([y] + post), first, m) && x.free && y.free
    requires MergeWrites(x, y, m, m')
    ensures RowState(h, r, pre + [Tile(x.addr, x.size + y.size, true)] + post, first, m') && OnlyInside(m, m', r)
  {
    hide Tiled, Frees, Headers, Linked;
    var z := Tile(x.addr, x.size + y.size, true);
    RowAddresses(pre, x, [y] + post, r);
    MergeTiles(pre, x, y, post, r.lo, r.hi);
    HeadersAround(h, pre, x, [y] + post, m);
    HeadersJoin(h, [y], post, m);
    FreesAreTiles(post);
    assert forall u | u in post :: u in [y] + post;
    assert OnlyInside(m, m', r);
    ReplaceHeader(h, pre, x, post, m, z, m');
    MergeLinks(Frees(pre), x, y, Frees(post), first, m, m');
  }

  ghost predicate RegionsApart(regions: map<int, Region>)
  {
    forall g, h | g in regions && h in regions && g != h :: Apart(regions[g], regions[h])
  }

  /** All heaps are in order and their regions do not meet. */
  ghost predicate AllHeaps(tiles: map<int, seq<Tile>>, regions: map<int, Region>, firsts: map<int, int>, m: Nodes)
  {
    && tiles.Keys == regions.Keys == firsts.Keys
    && (forall h | h in tiles :: HeapState(h, regions[h], tiles[h], firsts[h], m))
    && RegionsApart(regions)
  }

  lemma OneOfAll(tiles: map<int, seq<Tile>>, regions: map<int, Region>, firsts: map<int, int>, m: Nodes, h: int)
    requires AllHeaps(tiles, regions, firsts, m) && h in tiles
    ensures h in regions && h in firsts && HeapState(h, regions[h], tiles[h], firsts[h], m)
    ensures forall g | g in regions && g != h :: Apart(regions[g], regions[h])
  {
  }

  /** Changing one heap inside its own region keeps the others. */
  lemma OthersKept(tiles: map<int, seq<Tile>>, regions: map<int, Region>, firsts: map<int, int>, m: Nodes,
                   h: int, r: Region, ts: seq<Tile>, first: int, m': Nodes)
    requires AllHeaps(tiles, regions, firsts, m)
    requires forall g | g in regions && g != h :: Apart(regions[g], r)
    requires OnlyInside(m, m', r) && HeapState(h, r, ts, first, m')
    ensures AllHeaps(tiles[h := ts], regions[h := r], firsts[h := first], m')
  {
    hide HeapState, OnlyInside;
    forall g | g in tiles && g != h ensures HeapState(g, regions[g], tiles[g], firsts[g], m') {
      HeapFrame(g, regions[g], tiles[g], firsts[g], m, m', r);
    }
  }

  /** The heap header rounded up to eight bytes. */
  function AlignedStart(heapMem: int): (lo: int)
    ensures heapMem + 8 <= lo < heapMem + 16 && lo % 8 == 0
  {
    (heapMem + 8 + 7) / 8 * 8
  }

  class Memory {
    var nodes: Nodes
    var firstAvail: map<int, int>
    var kernelHeap: int
    ghost var tiles: map<int, seq<Tile>>
    ghost var regions: map<int, Region>

    ghost predicate Valid()
      reads this
    {
      AllHeaps(tiles, regions, firstAvail, nodes)
    }

    constructor ()
      ensures Valid() && tiles == map[] && kernelHeap == NULL
    {
      nodes, firstAvail := Nodes(map[], map[], map[]), map[];
      kernelHeap := NULL;
      tiles, regions := map[], map[];
    }

    /** `HeapInitialize`: one free node from the first aligned address to the end. */
    method HeapInitialize(bytes: nat, heapMem: int) returns (h: int)
      requires Valid() && heapMem != AVAIL_MAGIC && heapMem > 0 && heapMem !in tiles
      requires heapMem + bytes - AlignedStart(heapMem) >= NODE_HEADER
      requires forall g | g in regions :: Apart(regions[g], Region(AlignedStart(heapMem), heapMem + bytes))
      modifies this
      ensures Valid() && h == heapMem && kernelHeap == old(kernelHeap)
      ensures var lo := AlignedStart(heapMem);
              && tiles == old(tiles)[h := [Tile(lo, heapMem + bytes - lo, true)]]
              && regions == old(regions)[h := Region(lo, heapMem + bytes)]
    {
      hide HeapState;
      var first, end := AlignedStart(heapMem), heapMem + bytes;
      var m := nodes;
      m := m.(size := m.size[first := end - first]);
      m := m.(tag := m.tag[first := AVAIL_MAGIC]);
      m := m.(next := m.next[first := NULL]);
      FreshHeap(heapMem, first, end, m);
      OthersKept(tiles, regions, firstAvail, nodes, heapMem, Region(first, end), [Tile(first, end - first, true)], first, m);
      h := heapMem;
      nodes, firstAvail := m, firstAvail[h := first];
      tiles, regions := tiles[h := [Tile(first, end - first, true)]], regions[h := Region(first, end)];
    }

    ghost function Target(hHeap: int): int
      reads this
    {
      if hHeap == NULL then kernelHeap else hHeap
    }

    /** The body of the search loop once a node is large enough: split, unlink, mark. */
    method TakeNode(h: int, ghost k: nat, prev: int, now: int, n: int) returns (ghost i: nat)
      requires Valid() && h in tiles && k < |Frees(tiles[h])| && n >= MIN_NODE_SIZE && n % 8 == 0
      requires now == Frees(tiles[h])[k].addr && Frees(tiles[h])[k].size >= n && prev == LastOf(Frees(tiles[h])[..k])
      modifies this
      ensures Valid() && kernelHeap == old(kernelHeap) && regions == old(regions)
      ensures var ts := old(tiles)[h];
              && i < |ts| && ts[i] == Frees(ts)[k] && ts[i].free && Frees(ts[..i]) == Frees(ts)[..k]
              && tiles == old(tiles)[h := Allocate(ts, i, n)]
    {
      hide HeapState, OnlyInside, Allocate;
      ghost var ts, fs := tiles[h], Frees(tiles[h]);
      HeapChain(h, regions[h], ts, firstAvail[h], nodes);
      assert ChainNode(fs, k, nodes);
      i := FreeAt(ts, k);
      var m, link, first := nodes, nodes.next[now], firstAvail[h];
      if m.size[now] - n >= MIN_NODE_SIZE {
        var newnode := now + n;
        m := m.(size := m.size[newnode := m.size[now] - n]);
        m := m.(next := m.next[newnode := m.next[now]]);
        m := m.(tag := m.tag[newnode := AVAIL_MAGIC]);
        m := m.(size := m.size[now := n]);
        link := newnode;
      }
      if prev != NULL {
        m := m.(next := m.next[prev := link]);
      } else {
        first := link;
      }
      m := m.(tag := m.tag[now := h]);
      TailOf(fs, k);
      GiveOut(h, regions[h], ts, firstAvail[h], nodes, i, n, first, m);
      OthersKept(tiles, regions, firstAvail, nodes, h, regions[h], Allocate(ts, i, n), first, m);
      nodes, firstAvail := m, firstAvail[h := first];
      tiles := tiles[h := Allocate(ts, i, n)];
      assert regions[h := regions[h]] == regions;
    }

    /**
     `HeapAlloc`: first fit on the address-ordered list, splitting when the rest
     can hold a node.  It fails exactly when first fit finds no tile.
     */
    method HeapAlloc(hHeap: int, bytes: nat) returns (res: AllocResult)
      requires Valid() && bytes >= 1 && Target(hHeap) in tiles
      modifies this
      ensures Valid() && kernelHeap == old(kernelHeap) && regions == old(regions)
      ensures var h := old(Target(hHeap)); var ts := old(tiles)[h]; var n := Rounded(bytes); var i := FirstFit(ts, n);
              if i < |ts| then
                res == Block(ts[i].addr + PAYLOAD_OFFSET) && tiles == old(tiles)[h := Allocate(ts, i, n)]
              else
                && res == (if h == kernelHeap then OutOfKernelHeap else NoMemory)
                && tiles == old(tiles) && nodes == old(nodes) && firstAvail == old(firstAvail)
    {
      hide HeapState, OnlyInside, Allocate, FirstFit, AllHeaps, Frees, WellTiled;
      var h := if hHeap == NULL then kernelHeap else hHeap;
      var n := Rounded(bytes);
      ghost var ts, fs := tiles[h], Frees(tiles[h]);
      OneOfAll(tiles, regions, firstAvail, nodes, h);
      HeapChain(h, regions[h], ts, firstAvail[h], nodes);
      ghost var k: nat := 0;
      var now, prev := firstAvail[h], NULL;
      while now != NULL
        invariant k <= |fs| && now == AddrAt(fs, k) && prev == LastOf(fs[..k])
        invariant forall t | t in fs[..k] :: t.size < n
        decreases |fs| - k
      {
        assert ChainNode(fs, k, nodes);
        assert nodes.tag[now] == AVAIL_MAGIC;
        if nodes.size[now] >= n {
          ghost var i := TakeNode(h, k, prev, now, n);
          FirstFitIs(ts, n, i);
          return Block(now + PAYLOAD_OFFSET);
        }
        assert fs[..k + 1] == fs[..k] + [fs[k]];
        prev, now := now, nodes.next[now];
        k := k + 1;
      }
      assert k < |fs| ==> ChainNode(fs, k, nodes);
      assert fs[..k] == fs && ts[..|ts|] == ts;
      FirstFitIs(ts, n, |ts|);
      res := if h == kernelHeap then OutOfKernelHeap else NoMemory;
    }

    /** The node is marked and linked in between `prev` and `now`. */
    static method LinkIn(m0: Nodes, first0: int, node: int, prev: int, now: int, ghost h: int, ghost r: Region,
                         ghost pre: seq<Tile>, ghost t: Tile, ghost post: seq<Tile>)
      returns (m: Nodes, first: int)
      requires RowState(h, r, pre + [t] + post, first0, m0) && !t.free && node == t.addr
      requires prev == LastOf(Frees(pre)) && now == FirstOf(Frees(post))
      ensures RowState(h, r, pre + [t.(free := true)] + post, first, m)
      ensures OnlyInside(m0, m, r) && m.tag == m0.tag[node := AVAIL_MAGIC]
    {
      hide RowState, OnlyInside, InsertWrites, LastOf, FirstOf, Frees;
      m, first := m0, first0;
      m := m.(tag := m.tag[node := AVAIL_MAGIC]);
      m := m.(next := m.next[node := now]);
      if prev != NULL {
        m := m.(next := m.next[prev := node]);
      } else {
        first := node;
      }
      WroteInsert(node, prev, now, first0, m0, first, m);
      InsertNode(h, r, pre, t, post, first0, m0, first, m);
    }

    /** One node swallows the free node behind it. */
    static method MergeAdjacent(m: Nodes, at: int, gone: int, ghost h: int, ghost r: Region, ghost left: seq<Tile>,
                                ghost x: Tile, ghost y: Tile, ghost right: seq<Tile>, ghost first: int)
      returns (m': Nodes)
      requires RowState(h, r, left + [x] + ([y] + right), first, m) && x.free && y.free && at == x.addr && gone == y.addr
      ensures RowState(h, r, left + [Tile(x.addr, x.size + y.size, true)] + right, first, m')
      ensures OnlyInside(m, m', r) && m'.tag == m.tag
    {
      hide RowState, OnlyInside, MergeWrites;
      RowNode(h, r, left, x, [y] + right, first, m);
      assert (left + [x]) + [y] + right == left + [x] + ([y] + right);
      RowNode(h, r, left + [x], y, right, first, m);
      m' := m.(size := m.size[at := m.size[at] + m.size[gone]]);
      m' := m'.(next := m'.next[at := m'.next[gone]]);
      WroteMerge(x, y, m, m');
      MergeNodes(h, r, left, x, y, right, first, m, m');
    }

    /** The body of the loop in `HeapFree`: link the node in, merge left, merge right. */
    method PutBack(h: int, ghost i: nat, prev: int, node: int, now: int)
      requires Valid() && h in tiles && i < |tiles[h]| && !tiles[h][i].free && node == tiles[h][i].addr
      requires prev == LastOf(Frees(tiles[h][..i])) && now == FirstOf(Frees(tiles[h][i + 1..]))
      modifies this
      ensures Valid() && kernelHeap == old(kernelHeap) && regions == old(regions)
      ensures tiles == old(tiles)[h := Release(old(tiles)[h], i)]
      ensures nodes.tag == old(nodes.tag)[node := AVAIL_MAGIC]
    {
      hide AllHeaps, HeapState, RowState, OnlyInside, Frees, Coalesced, Tiled, InsertWrites, MergeWrites, LastOf, FirstOf;
      OneOfAll(tiles, regions, firstAvail, nodes, h);
      ghost var r, ts := regions[h], tiles[h];
      ghost var pre, t, post := ts[..i], ts[i], ts[i + 1..];
      ghost var m0, first0 := nodes, firstAvail[h];
      FreeStart(h, r, ts, i, first0, m0);
      var m, first := LinkIn(nodes, firstAvail[h], node, prev, now, h, r, pre, t, post);
      var cur := node;
      ghost var m1 := m;
      ghost var left, z, right := pre, t.(free := true), post;
      RowNode(h, r, left, z, right, first, m);
      PrevAdjacent(pre, t, post, r);
      if prev != NULL {
        PrevNode(h, r, pre, z, post, first, m);
        if prev + m.size[prev] == node {
          ghost var l := pre[|pre| - 1];
          left := DropLast(pre);
          UnsnocTile(pre);
          assert left + [l] + ([z] + post) == pre + [z] + post;
          m := MergeAdjacent(m, prev, node, h, r, left, l, z, post, first);
          cur, z := prev, Tile(l.addr, l.size + z.size, true);
          OnlyInsideTrans(m0, m1, m, r);
          RowNode(h, r, left, z, right, first, m);
        }
      }
      ghost var m2 := m;
      if cur + m.size[cur] == now {
        ghost var y := post[0];
        right := post[1..];
        assert post == [y] + right;
        m := MergeAdjacent(m, cur, now, h, r, left, z, y, right, first);
        z := Tile(z.addr, z.size + y.size, true);
        OnlyInsideTrans(m0, m2, m, r);
      }
      FreeEnd(h, r, ts, i, first, m, left, z, right);
      OthersKept(tiles, regions, firstAvail, nodes, h, r, Release(ts, i), first, m);
      nodes, firstAvail := m, firstAvail[h := first];
      tiles := tiles[h := Release(ts, i)];
      assert regions[h := regions[h]] == regions;
    }

    /**
     `HeapFree`: the node goes back to the heap its header names, at its place in
     address order, merged with the free neighbours.  A header that says "available" is
     reported and nothing changes, also when the node is no longer one because a merge
     has swallowed it: no free ever takes that mark away.
     */
    method HeapFree(mem: int, ghost h: int, ghost i: nat) returns (res: FreeResult)
      requires Valid() && mem - PAYLOAD_OFFSET in nodes.tag
      requires nodes.tag[mem - PAYLOAD_OFFSET] != AVAIL_MAGIC ==>
                 h in tiles && i < |tiles[h]| && tiles[h][i].addr == mem - PAYLOAD_OFFSET
      modifies this
      ensures Valid() && kernelHeap == old(kernelHeap) && regions == old(regions)
      ensures if old(nodes).tag[mem - PAYLOAD_OFFSET] == AVAIL_MAGIC then res == DoubleFree && unchanged(this)
              else
                && res == Freed && !old(tiles)[h][i].free
                && tiles == old(tiles)[h := Release(old(tiles)[h], i)]
                && nodes.tag == old(nodes.tag)[mem - PAYLOAD_OFFSET := AVAIL_MAGIC]
    {
      hide HeapState, Release, Frees, LastOf, FirstOf;
      var node := mem - PAYLOAD_OFFSET;
      if nodes.tag[node] == AVAIL_MAGIC {
        return DoubleFree;
      }
      ghost var ts := tiles[h];
      HeaderAt(h, regions[h], ts, firstAvail[h], nodes, i);
      var heap := nodes.tag[node];
      ghost var a, b := Frees(ts[..i]), Frees(ts[i + 1..]);
      ghost var fs := Frees(ts);
      HeapChain(h, regions[h], ts, firstAvail[h], nodes);
      FreesSplitByAddress(ts, regions[h], i);
      ghost var k: nat := 0;
      var now, prev := firstAvail[heap], NULL;
      EmptyLast(fs);
      while !(now == NULL || node < now)
        invariant unchanged(this)
        invariant k <= |a| && now == AddrAt(fs, k) && prev == LastOf(fs[..k])
        decreases |a| - k
      {
        assert ChainNode(fs, k, nodes);
        LastSnoc(fs, k);
        prev, now := now, nodes.next[now];
        k := k + 1;
      }
      assert k < |fs| ==> ChainNode(fs, k, nodes);
      assert k == |a|;
      assert fs[..k] == a;
      assert now == FirstOf(b) by { BoundaryFirst(a, b); }
      PutBack(heap, i, prev, node, now);
      res := Freed;
    }

    /**
     Freeing a block twice with any frees in between is reported, and the second free
     changes nothing: between them no header loses its mark.
     */
    method FreeTwice(mem: int, ghost h: int, ghost i: nat, others: seq<Tile>) returns (second: FreeResult)
      requires Valid() && h in tiles && i < |tiles[h]| && tiles[h][i].addr == mem - PAYLOAD_OFFSET && !tiles[h][i].free
      requires LegalRun(Release(tiles[h], i), Freeing(others))
      modifies this
      ensures Valid() && second == DoubleFree
      ensures tiles == old(tiles)[h := RunHeap(Release(old(tiles)[h], i), Freeing(others))]
    {
      hide HeapState, Release;
      HeaderAt(h, regions[h], tiles[h], firstAvail[h], nodes, i);
      var first := HeapFree(mem, h, i);
      FreeEach(h, others);
      second := HeapFree(mem, h, 0);
    }

    /** Freeing live blocks of one heap one after the other. */
    method FreeEach(ghost h: int, blocks: seq<Tile>)
      requires Valid() && h in tiles && LegalRun(tiles[h], Freeing(blocks))
      modifies this
      ensures Valid() && kernelHeap == old(kernelHeap) && regions == old(regions)
      ensures tiles == old(tiles)[h := RunHeap(old(tiles)[h], Freeing(blocks))]
      ensures forall a | a in old(nodes).tag && old(nodes).tag[a] == AVAIL_MAGIC ::
                a in nodes.tag && nodes.tag[a] == AVAIL_MAGIC
      decreases |blocks|
    {
      hide HeapState, Release, AllHeaps, Allocate, FirstFit;
      OneOfAll(tiles, regions, firstAvail, nodes, h);
      if blocks == [] {
        assert tiles == tiles[h := tiles[h]];
        return;
      }
      assert Freeing(blocks)[1..] == Freeing(blocks[1..]);
      ghost var i := IndexOf(tiles[h], blocks[0]);
      HeaderAt(h, regions[h], tiles[h], firstAvail[h], nodes, i);
      var res := HeapFree(blocks[0].addr + PAYLOAD_OFFSET, h, i);
      FreeEach(h, blocks[1..]);
    }

    /** A program writes into a block it holds: links and stale headers inside it may change. */
    method UserWrites(ghost h: int, ghost t: Tile, written: Nodes)
      requires Valid() && h in tiles && t in Live(tiles[h]) && OnlyPayload(nodes, written, t)
      modifies this`nodes
      ensures Valid() && nodes == written
    {
      hide HeapState, OnlyInside;
      PayloadWritesKeep(h, regions[h], tiles[h], firstAvail[h], nodes, written, t);
      OthersKept(tiles, regions, firstAvail, nodes, h, regions[h], tiles[h], firstAvail[h], written);
      assert tiles[h := tiles[h]] == tiles && regions[h := regions[h]] == regions
          && firstAvail[h := firstAvail[h]] == firstAvail;
      nodes := written;
    }

    /**
     Every legal run over all heaps: memory follows the rows of tiles.  It stops early
     only where the kernel heap is exhausted, and then before that request.
     */
    method Run(reqs: seq<Request>) returns (done: nat)
      requires Valid() && LegalAll(tiles, reqs)
      modifies this
      ensures Valid() && kernelHeap == old(kernelHeap) && regions == old(regions)
      ensures done <= |reqs| && LegalAll(old(tiles), reqs[..done]) && tiles == RunAll(old(tiles), reqs[..done])
      ensures done < |reqs| ==>
                && reqs[done].op.AllocOp? && reqs[done].heap == kernelHeap && kernelHeap in tiles
                && FirstFit(tiles[kernelHeap], Rounded(reqs[done].op.size)) == |tiles[kernelHeap]|
      decreases |reqs|
    {
      hide HeapState, Release, Allocate, FirstFit, AllHeaps;
      if reqs == [] {
        return 0;
      }
      var h, op := reqs[0].heap, reqs[0].op;
      OneOfAll(tiles, regions, firstAvail, nodes, h);
      match op {
        case AllocOp(size) =>
          NotNull(h, regions[h], tiles[h], firstAvail[h], nodes);
          var res := HeapAlloc(h, size);
          if res == OutOfKernelHeap {
            assert reqs[..0] == [];
            return 0;
          }
          assert tiles == StepAll(old(tiles), reqs[0]) by { assert tiles == tiles[h := tiles[h]]; }
        case FreeOp(block) =>
          ghost var i := IndexOf(tiles[h], block);
          HeaderAt(h, regions[h], tiles[h], firstAvail[h], nodes, i);
          var res := HeapFree(block.addr + PAYLOAD_OFFSET, h, i);
      }
      var more := Run(reqs[1..]);
      done := more + 1;
      assert reqs[..done][1..] == reqs[1..][..more];
    }
  }

  // ----- runs over all heaps

  datatype Request = Request(heap: int, op: HeapOp)

  ghost function Freeing(blocks: seq<Tile>): seq<HeapOp>
  {
    seq(|blocks|, i requires 0 <= i < |blocks| => FreeOp(blocks[i]))
  }

  ghost predicate LegalRequest(tiles: map<int, seq<Tile>>, req: Request)
  {
    req.heap in tiles && LegalOp(tiles[req.heap], req.op)
  }

  ghost function StepAll(tiles: map<int, seq<Tile>>, req: Request): map<int, seq<Tile>>
    requires LegalRequest(tiles, req)
  {
    tiles[req.heap := StepHeap(tiles[req.heap], req.op)]
  }

  ghost predicate LegalAll(tiles: map<int, seq<Tile>>, reqs: seq<Request>)
    decreases |reqs|
  {
    reqs == [] || (LegalRequest(tiles, reqs[0]) && LegalAll(StepAll(tiles, reqs[0]), reqs[1..]))
  }

  ghost function RunAll(tiles: map<int, seq<Tile>>, reqs: seq<Request>): map<int, seq<Tile>>
    requires LegalAll(tiles, reqs)
    decreases |reqs|
  {
    if reqs == [] then tiles else RunAll(StepAll(tiles, reqs[0]), reqs[1..])
  }

  /** What one heap sees of a run. */
  ghost function OpsOf(h: int, reqs: seq<Request>): seq<HeapOp>
  {
    if reqs == [] then [] else (if reqs[0].heap == h then [reqs[0].op] else []) + OpsOf(h, reqs[1..])
  }

  /** Heaps do not interfere: each goes through its own requests as if it were alone. */
  lemma {:induction false} HeapsAreIndependent(tiles: map<int, seq<Tile>>, reqs: seq<Request>, h: int)
    requires LegalAll(tiles, reqs) && h in tiles
    ensures LegalRun(tiles[h], OpsOf(h, reqs)) && h in RunAll(tiles, reqs)
    ensures RunAll(tiles, reqs)[h] == RunHeap(tiles[h], OpsOf(h, reqs))
    decreases |reqs|
  {
    hide LegalOp, StepHeap;
    if reqs != [] {
      HeapsAreIndependent(StepAll(tiles, reqs[0]), reqs[1..], h);
      if reqs[0].heap == h {
        assert OpsOf(h, reqs)[0] == reqs[0].op && OpsOf(h, reqs)[1..] == OpsOf(h, reqs[1..]);
      } else {
        assert OpsOf(h, reqs) == OpsOf(h, reqs[1..]);
      }
    }
  }

  // ----- writes of the program

  /** Only what lies in the payload of `t` differs; its link shares the first word of the payload. */
  ghost predicate OnlyPayload(m: Nodes, m': Nodes, t: Tile)
  {
    && (forall a | !(t.addr < a < t.End()) :: Keeps(a, m.size, m'.size) && Keeps(a, m.tag, m'.tag))
    && (forall a | !(t.addr <= a < t.End()) :: Keeps(a, m.next, m'.next))
  }

  /** The allocator does not depend on what programs write into live blocks. */
  lemma PayloadWritesKeep(h: int, r: Region, ts: seq<Tile>, first: int, m: Nodes, m': Nodes, t: Tile)
    requires HeapState(h, r, ts, first, m) && t in ts && !t.free && OnlyPayload(m, m', t)
    ensures HeapState(h, r, ts, first, m') && OnlyInside(m, m', r)
  {
    hide Tiled, Coalesced, Frees;
    TilesInside(ts, r.lo, r.hi);
    FreesAreTiles(ts);
    forall u | u in ts ensures HeaderOk(h, u, m') && (u.free ==> !(t.addr <= u.addr < t.End())) {
      assert HeaderOk(h, u, m);
      if u != t {
        LiveBlocksDisjoint(ts, r.lo, r.hi, u, t);
      }
      assert Keeps(u.addr, m.size, m'.size) && Keeps(u.addr, m.tag, m'.tag);
    }
    var fs := Frees(ts);
    forall k: nat | k < |fs| ensures LinkOk(fs, k, m'.next) {
      assert LinkOk(fs, k, m.next);
      assert fs[k] in fs && Keeps(fs[k].addr, m.next, m'.next);
    }
    forall a | !r.Holds(a)
      ensures Keeps(a, m.size, m'.size) && Keeps(a, m.tag, m'.tag) && Keeps(a, m.next, m'.next)
    {
    }
  }

  lemma NotNull(h: int, r: Region, ts: seq<Tile>, first: int, m: Nodes)
    requires HeapState(h, r, ts, first, m)
    ensures h != NULL
  {
  }

  // ----- facts used by HeapFree

  lemma EmptyLast(fs: seq<Tile>)
    ensures LastOf(fs[..0]) == NULL
  {
  }

  lemma LastSnoc(fs: seq<Tile>, k: nat)
    requires k < |fs|
    ensures LastOf(fs[..k + 1]) == fs[k].addr
  {
  }

  lemma BoundaryFirst(a: seq<Tile>, b: seq<Tile>)
    ensures AddrAt(a + b, |a|) == FirstOf(b)
  {
  }

  lemma HeaderAt(h: int, r: Region, ts: seq<Tile>, first: int, m: Nodes, i: nat)
    requires HeapState(h, r, ts, first, m) && i < |ts|
    ensures HeaderOk(h, ts[i], m) && h != AVAIL_MAGIC
  {
    assert ts[i] in ts;
  }

  /** The free list splits around an allocated tile into lower and higher addresses. */
  lemma FreesSplitByAddress(ts: seq<Tile>, r: Region, i: nat)
    requires WellTiled(ts, r.lo, r.hi) && i < |ts| && !ts[i].free && 0 < r.lo
    ensures Frees(ts) == Frees(ts[..i]) + Frees(ts[i + 1..])
    ensures forall u | u in Frees(ts[..i]) :: u.addr < ts[i].addr
    ensures forall u | u in Frees(ts[i + 1..]) :: ts[i].addr < u.addr
  {
    hide Tiled, Frees, Coalesced;
    SplitAt(ts, i);
    FreesOfRow(ts[..i], ts[i], ts[i + 1..], r);
  }

  lemma FreesOfRow(pre: seq<Tile>, t: Tile, post: seq<Tile>, r: Region)
    requires Tiled(pre + [t] + post, r.lo, r.hi) && !t.free && 0 < r.lo
    ensures Frees(pre + [t] + post) == Frees(pre) + Frees(post)
    ensures forall u | u in Frees(pre) :: u.addr < t.addr
    ensures forall u | u in Frees(post) :: t.addr < u.addr
  {
    hide Tiled, Frees, Increasing;
    RowAddresses(pre, t, post, r);
    FreesAround(pre, t, post);
    assert Frees(pre) + [] == Frees(pre);
  }

  lemma FreeStart(h: int, r: Region, ts: seq<Tile>, i: nat, first: int, m: Nodes)
    requires HeapState(h, r, ts, first, m) && i < |ts|
    ensures ts == ts[..i] + [ts[i]] + ts[i + 1..]
    ensures RowState(h, r, ts[..i] + [ts[i]] + ts[i + 1..], first, m)
    ensures Tiled(ts[..i] + [ts[i]] + ts[i + 1..], r.lo, r.hi) && 0 < r.lo < r.hi && WellTiled(ts, r.lo, r.hi)
  {
    SplitAt(ts, i);
  }

  lemma WroteInsert(node: int, prev: int, now: int, first: int, m: Nodes, first': int, m': Nodes)
    requires m'.size == m.size && m'.tag == m.tag[node := AVAIL_MAGIC]
    requires m'.next == LinkFrom(prev, m.next[node := now], node)
    requires first' == if prev == NULL then node else first
    ensures InsertWrites(node, prev, now, first, m, first', m')
  {
  }

  lemma WroteMerge(x: Tile, y: Tile, m: Nodes, m': Nodes)
    requires m'.size == m.size[x.addr := x.size + y.size] && m'.tag == m.tag
    requires y.addr in m.next && m'.next == m.next[x.addr := m.next[y.addr]]
    ensures MergeWrites(x, y, m, m')
  {
  }

  /** A free tile of a row: its header and link are readable. */
  lemma RowNode(h: int, r: Region, pre: seq<Tile>, t: Tile, post: seq<Tile>, first: int, m: Nodes)
    requires RowState(h, r, pre + [t] + post, first, m) && t.free
    ensures t.addr in m.size && m.size[t.addr] == t.size && t.addr in m.next
  {
    HeadersAround(h, pre, t, post, m);
    FreesAround(pre, t, post);
    var fs := Frees(pre + [t] + post);
    assert fs[|Frees(pre)|] == t;
    assert LinkOk(fs, |Frees(pre)|, m.next);
  }

  /** The predecessor on the list has a readable size. */
  lemma PrevNode(h: int, r: Region, pre: seq<Tile>, t: Tile, post: seq<Tile>, first: int, m: Nodes)
    requires RowState(h, r, pre + [t] + post, first, m) && LastOf(Frees(pre)) != NULL
    ensures var u := Frees(pre)[|Frees(pre)| - 1]; u.addr in m.size && m.size[u.addr] == u.size
  {
    var u := Frees(pre)[|Frees(pre)| - 1];
    assert u in Frees(pre);
    FreesAreTiles(pre);
    HeadersAround(h, pre, t, post, m);
    assert HeaderOk(h, u, m);
  }

  /** Adjacency in memory is adjacency in the row. */
  lemma PrevAdjacent(pre: seq<Tile>, t: Tile, post: seq<Tile>, r: Region)
    requires Tiled(pre + [t] + post, r.lo, r.hi) && 0 < r.lo
    ensures EndsFree(pre) ==> LastOf(Frees(pre)) == pre[|pre| - 1].addr && pre[|pre| - 1].End() == t.addr
    ensures EndsFree(pre) ==> LastOf(Frees(pre)) != NULL
    ensures LastOf(Frees(pre)) != NULL ==>
              var u := Frees(pre)[|Frees(pre)| - 1]; (u.End() == t.addr <==> EndsFree(pre)) && u.addr == LastOf(Frees(pre))
    ensures FirstOf(Frees(post)) == t.End() <==> StartsFree(post)
    ensures StartsFree(post) ==> post[0].addr == t.End()
  {
    hide Tiled, Frees;
    TiledAround(pre, t, post, r.lo, r.hi);
    LastAdjacent(pre, r.lo, t.addr);
    LowEnd(pre, r.lo, t.addr);
    FirstAdjacent(post, t.End(), r.hi);
  }

  lemma LowEnd(ts: seq<Tile>, lo: int, hi: int)
    requires Tiled(ts, lo, hi)
    ensures lo <= hi
  {
    TilesInside(ts, lo, hi);
  }

  lemma LastAdjacent(pre: seq<Tile>, lo: int, hi: int)
    requires Tiled(pre, lo, hi) && 0 < lo
    ensures EndsFree(pre) ==> LastOf(Frees(pre)) == pre[|pre| - 1].addr != NULL && pre[|pre| - 1].End() == hi
    ensures LastOf(Frees(pre)) != NULL ==>
              var u := Frees(pre)[|Frees(pre)| - 1]; (u.End() == hi <==> EndsFree(pre)) && u.addr == LastOf(Frees(pre))
  {
    hide Tiled, Frees;
    EmptyFrees();
    if pre != [] {
      var l := pre[|pre| - 1];
      UnsnocTile(pre);
      FreesConcat(DropLast(pre), [l]);
      FreesOne(l);
      assert DropLast(pre) + [l] + [] == pre;
      TiledAround(DropLast(pre), l, [], lo, hi);
      TiledEmpty(l.End(), hi);
      FreesIncreasing(DropLast(pre), lo, l.addr);
      LowEnd(DropLast(pre), lo, l.addr);
      var fs := Frees(pre);
      assert fs != [] ==> fs[|fs| - 1] in fs;
    }
  }

  lemma EmptyFrees()
    ensures Frees([]) == []
  {
  }

  lemma FirstAdjacent(post: seq<Tile>, lo: int, hi: int)
    requires Tiled(post, lo, hi) && 0 < lo
    ensures FirstOf(Frees(post)) == lo <==> StartsFree(post)
    ensures StartsFree(post) ==> post[0].addr == lo
  {
    hide Tiled, Frees;
    EmptyFrees();
    if post != [] {
      var y, rest := post[0], post[1..];
      assert post == [] + [y] + rest && post == [y] + rest;
      TiledAround([], y, rest, lo, hi);
      TiledEmpty(lo, y.addr);
      FreesConcat([y], rest);
      FreesOne(y);
      FreesIncreasing(rest, y.End(), hi);
      var fs := Frees(rest);
      assert fs != [] ==> fs[0] in fs;
    }
  }

  lemma OnlyInsideTrans(m: Nodes, m1: Nodes, m2: Nodes, r: Region)
    requires OnlyInside(m, m1, r) && OnlyInside(m1, m2, r)
    ensures OnlyInside(m, m2, r)
  {
  }

  lemma FreeEnd(h: int, r: Region, ts: seq<Tile>, i: nat, first: int, m: Nodes, left: seq<Tile>, z: Tile, right: seq<Tile>)
    requires WellTiled(ts, r.lo, r.hi) && i < |ts| && !ts[i].free
    requires RowState(h, r, left + [z] + right, first, m)
    requires Release(ts, i) == left + [z] + right
    ensures HeapState(h, r, Release(ts, i), first, m)
  {
    ReleaseWellTiled(ts, r.lo, r.hi, i);
  }

  /** A node met while walking the list: its header and its link are readable. */
  ghost predicate ChainNode(fs: seq<Tile>, k: nat, m: Nodes)
    requires k < |fs|
  {
    && fs[k].addr > 0
    && fs[k].addr in m.size && m.size[fs[k].addr] == fs[k].size
    && fs[k].addr in m.tag && m.tag[fs[k].addr] == AVAIL_MAGIC
    && fs[k].addr in m.next && m.next[fs[k].addr] == AddrAt(fs, k + 1)
  }

  lemma HeapChain(h: int, r: Region, ts: seq<Tile>, first: int, m: Nodes)
    requires HeapState(h, r, ts, first, m)
    ensures first == AddrAt(Frees(ts), 0) && WellTiled(ts, r.lo, r.hi) && 0 < r.lo
    ensures forall k: nat | k < |Frees(ts)| :: ChainNode(Frees(ts), k, m)
  {
    var fs := Frees(ts);
    FreesAreTiles(ts);
    TilesInside(ts, r.lo, r.hi);
    forall k: nat | k < |fs| ensures ChainNode(fs, k, m) {
      assert fs[k] in fs;
      assert HeaderOk(h, fs[k], m);
      assert LinkOk(fs, k, m.next);
    }
  }

  lemma TailOf(fs: seq<Tile>, k: nat)
    requires k < |fs|
    ensures FirstOf(fs[k + 1..]) == AddrAt(fs, k + 1)
  {
  }
}
