/**
 What one heap region looks like from outside: a row of tiles that covers it
 exactly, each tile free or allocated.  The first-fit and coalescing rules of
 src/heap.c are stated on that row.
 */
module HeapTiles {

  datatype Tile = Tile(addr: int, size: int, free: bool) {
    function End(): int { addr + size }

    ghost predicate Good() { size >= NODE_HEADER && addr % 8 == 0 }
  }

  /** A node header and its link: the least a node can be. */
  const NODE_HEADER := 12

  /** A split must leave room for a node and its smallest payload. */
  const MIN_NODE_SIZE := 16

  const PAYLOAD_OFFSET := 8

  /** The tiles cover `[lo, hi)` one after the other, without gap or overlap. */
  ghost predicate Tiled(ts: seq<Tile>, lo: int, hi: int)
  {
    if ts == [] then lo == hi
    else ts[0].addr == lo && ts[0].Good() && Tiled(ts[1..], ts[0].End(), hi)
  }

  ghost predicate EndsFree(ts: seq<Tile>) { ts != [] && ts[|ts| - 1].free }

  ghost predicate StartsFree(ts: seq<Tile>) { ts != [] && ts[0].free }

  /** No two neighbouring tiles are both free. */
  ghost predicate Coalesced(ts: seq<Tile>)
  {
    |ts| >= 2 ==> !(ts[0].free && ts[1].free) && Coalesced(ts[1..])
  }

  ghost predicate WellTiled(ts: seq<Tile>, lo: int, hi: int)
  {
    Tiled(ts, lo, hi) && Coalesced(ts)
  }

  lemma {:induction false} TiledJoin(a: seq<Tile>, b: seq<Tile>, lo: int, mid: int, hi: int)
    requires Tiled(a, lo, mid) && Tiled(b, mid, hi)
    ensures Tiled(a + b, lo, hi)
  {
    if a == [] {
      assert a + b == b;
    } else {
      assert (a + b)[1..] == a[1..] + b;
      TiledJoin(a[1..], b, a[0].End(), mid, hi);
    }
  }

  lemma {:induction false} TiledSplit(a: seq<Tile>, b: seq<Tile>, lo: int, hi: int) returns (mid: int)
    requires Tiled(a + b, lo, hi)
    ensures Tiled(a, lo, mid) && Tiled(b, mid, hi)
  {
    if a == [] {
      assert a + b == b;
      mid := lo;
    } else {
      assert (a + b)[1..] == a[1..] + b;
      mid := TiledSplit(a[1..], b, a[0].End(), hi);
    }
  }

  lemma TiledOne(t: Tile, lo: int, hi: int)
    ensures Tiled([t], lo, hi) <==> t.addr == lo && t.End() == hi && t.Good()
  {
    assert [t][1..] == [];
  }

  /** A row split at one of its tiles. */
  lemma TiledAround(pre: seq<Tile>, t: Tile, post: seq<Tile>, lo: int, hi: int)
    ensures Tiled(pre + [t] + post, lo, hi) <==> Tiled(pre, lo, t.addr) && t.Good() && Tiled(post, t.End(), hi)
  {
    TiledOne(t, t.addr, t.End());
    if Tiled(pre + [t] + post, lo, hi) {
      var m2 := TiledSplit(pre + [t], post, lo, hi);
      var m1 := TiledSplit(pre, [t], lo, m2);
      TiledOne(t, m1, m2);
    }
    if Tiled(pre, lo, t.addr) && t.Good() && Tiled(post, t.End(), hi) {
      TiledJoin(pre, [t], lo, t.addr, t.End());
      TiledJoin(pre + [t], post, lo, t.End(), hi);
    }
  }

  /** Every tile of a row lies inside its bounds. */
  lemma {:induction false} TilesInside(ts: seq<Tile>, lo: int, hi: int)
    requires Tiled(ts, lo, hi)
    ensures lo <= hi && forall t | t in ts :: lo <= t.addr && t.End() <= hi && t.Good()
  {
    if ts != [] {
      TilesInside(ts[1..], ts[0].End(), hi);
    }
  }

  lemma {:induction false} CoalescedJoin(a: seq<Tile>, b: seq<Tile>)
    ensures Coalesced(a + b) <==> Coalesced(a) && Coalesced(b) && !(EndsFree(a) && StartsFree(b))
  {
    if a == [] {
      assert a + b == b;
    } else {
      assert (a + b)[1..] == a[1..] + b;
      CoalescedJoin(a[1..], b);
    }
  }

  // ----- the free list

  function Frees(ts: seq<Tile>): (fs: seq<Tile>)
  {
    if ts == [] then []
    else (if ts[0].free then [ts[0]] else []) + Frees(ts[1..])
  }

  lemma {:induction false} FreesConcat(a: seq<Tile>, b: seq<Tile>)
    ensures Frees(a + b) == Frees(a) + Frees(b)
  {
    if a == [] {
      assert a + b == b;
    } else {
      assert (a + b)[0] == a[0] && (a + b)[1..] == a[1..] + b;
      FreesConcat(a[1..], b);
      var head := if a[0].free then [a[0]] else [];
      assert Frees(a + b) == head + Frees(a[1..] + b);
      assert head + (Frees(a[1..]) + Frees(b)) == (head + Frees(a[1..])) + Frees(b);
    }
  }

  lemma FreesOne(t: Tile)
    ensures Frees([t]) == if t.free then [t] else []
  {
    assert [t][1..] == [];
  }

  lemma FreesAround(pre: seq<Tile>, t: Tile, post: seq<Tile>)
    ensures Frees(pre + [t] + post) == Frees(pre) + (if t.free then [t] else []) + Frees(post)
  {
    FreesConcat(pre + [t], post);
    FreesConcat(pre, [t]);
    FreesOne(t);
  }

  lemma {:induction false} FreesAreTiles(ts: seq<Tile>)
    ensures forall t :: t in Frees(ts) <==> t in ts && t.free
  {
    if ts != [] {
      FreesAreTiles(ts[1..]);
      assert ts == [ts[0]] + ts[1..];
    }
  }

  /** The free list is strictly sorted by address. */
  ghost predicate Increasing(fs: seq<Tile>)
  {
    forall i, j | 0 <= i < j < |fs| :: fs[i].addr < fs[j].addr
  }

  lemma {:induction false} FreesIncreasing(ts: seq<Tile>, lo: int, hi: int)
    requires Tiled(ts, lo, hi)
    ensures Increasing(Frees(ts))
    ensures forall t | t in Frees(ts) :: lo <= t.addr && t.End() <= hi && t.Good()
  {
    TilesInside(ts, lo, hi);
    FreesAreTiles(ts);
    if ts != [] {
      FreesIncreasing(ts[1..], ts[0].End(), hi);
    }
  }

  /** The `k`-th free tile sits somewhere in the row. */
  lemma {:induction false} FreeAt(ts: seq<Tile>, k: nat) returns (i: nat)
    requires k < |Frees(ts)|
    ensures i < |ts| && ts[i] == Frees(ts)[k] && ts[i].free
    ensures Frees(ts[..i]) == Frees(ts)[..k] && Frees(ts[i + 1..]) == Frees(ts)[k + 1..]
  {
    if ts[0].free && k == 0 {
      i := 0;
    } else {
      var j := FreeAt(ts[1..], if ts[0].free then k - 1 else k);
      i := j + 1;
      assert ts[i + 1..] == ts[1..][j + 1..];
      assert ts[..i][1..] == ts[1..][..j];
    }
  }

  lemma SplitAt(ts: seq<Tile>, i: nat)
    requires i < |ts|
    ensures ts == ts[..i] + [ts[i]] + ts[i + 1..]
  {
  }

  // ----- first fit

  /** The request rounded to eight bytes with the header in front. */
  function Rounded(size: nat): (n: nat)
    ensures size + 8 <= n < size + 16 && n % 8 == 0
  {
    (size + 7) / 8 * 8 + PAYLOAD_OFFSET
  }

  ghost predicate Fits(t: Tile, n: int) { t.free && t.size >= n }

  /** Position of the first free tile of at least `n` bytes, or the length of the row. */
  ghost function FirstFit(ts: seq<Tile>, n: int): (i: nat)
    ensures i <= |ts|
    ensures i < |ts| ==> Fits(ts[i], n)
    ensures forall j | 0 <= j < i :: !Fits(ts[j], n)
  {
    if ts == [] then 0
    else if Fits(ts[0], n) then 0
    else
      var r := FirstFit(ts[1..], n);
      assert forall j | 1 <= j < r + 1 :: ts[j] == ts[1..][j - 1];
      1 + r
  }

  lemma FirstFitIs(ts: seq<Tile>, n: int, i: nat)
    requires i <= |ts| && (i < |ts| ==> Fits(ts[i], n))
    requires forall t | t in Frees(ts[..i]) :: t.size < n
    ensures FirstFit(ts, n) == i
  {
    FreesAreTiles(ts[..i]);
    assert forall j | 0 <= j < i :: ts[j] in ts[..i];
  }

  /** What becomes of a free tile when `n` bytes of it are given out. */
  function Pieces(t: Tile, n: int): (ps: seq<Tile>)
  {
    if t.size - n >= MIN_NODE_SIZE then [Tile(t.addr, n, false), Tile(t.addr + n, t.size - n, true)]
    else [Tile(t.addr, t.size, false)]
  }

  /** The row after tile `i` has been given out for `n` bytes. */
  ghost function Allocate(ts: seq<Tile>, i: nat, n: int): (ts': seq<Tile>)
    requires i < |ts|
  {
    ts[..i] + Pieces(ts[i], n) + ts[i + 1..]
  }

  function DropLast(ts: seq<Tile>): seq<Tile>
    requires ts != []
  {
    ts[..|ts| - 1]
  }

  /** A tile given back between `pre` and `post`, merged with its free neighbours. */
  ghost function Merge(pre: seq<Tile>, t: Tile, post: seq<Tile>): (ts': seq<Tile>)
  {
    var left := if EndsFree(pre) then DropLast(pre) else pre;
    var lo := if EndsFree(pre) then pre[|pre| - 1].addr else t.addr;
    var right := if StartsFree(post) then post[1..] else post;
    var hi := if StartsFree(post) then post[0].End() else t.End();
    left + [Tile(lo, hi - lo, true)] + right
  }

  /** The row after tile `i` has been given back. */
  ghost function Release(ts: seq<Tile>, i: nat): (ts': seq<Tile>)
    requires i < |ts|
  {
    Merge(ts[..i], ts[i], ts[i + 1..])
  }

  lemma AllocateWellTiled(ts: seq<Tile>, lo: int, hi: int, i: nat, n: int)
    requires WellTiled(ts, lo, hi) && i < |ts| && Fits(ts[i], n) && n >= MIN_NODE_SIZE && n % 8 == 0
    ensures WellTiled(Allocate(ts, i, n), lo, hi)
  {
    var pre, t, post := ts[..i], ts[i], ts[i + 1..];
    SplitAt(ts, i);
    TiledAround(pre, t, post, lo, hi);
    CoalescedJoin(pre + [t], post);
    CoalescedJoin(pre, [t]);
    var ps := Pieces(t, n);
    TiledPieces(t, n);
    TiledJoin(pre, ps, lo, t.addr, t.End());
    TiledJoin(pre + ps, post, lo, t.End(), hi);
    CoalescedJoin(pre, ps);
    CoalescedJoin(pre + ps, post);
  }

  lemma TiledPieces(t: Tile, n: int)
    requires Fits(t, n) && t.Good() && n >= MIN_NODE_SIZE && n % 8 == 0
    ensures Tiled(Pieces(t, n), t.addr, t.End()) && Coalesced(Pieces(t, n))
  {
    var ps := Pieces(t, n);
    if |ps| == 2 {
      assert ps == [ps[0]] + [ps[1]];
      TiledOne(ps[0], t.addr, t.addr + n);
      TiledOne(ps[1], t.addr + n, t.End());
      TiledJoin([ps[0]], [ps[1]], t.addr, t.addr + n, t.End());
    } else {
      TiledOne(ps[0], t.addr, t.End());
    }
  }

  lemma UnsnocTile(ts: seq<Tile>)
    requires ts != []
    ensures ts == DropLast(ts) + [ts[|ts| - 1]]
  {
  }

  lemma CoalescedOne(t: Tile)
    ensures Coalesced([t]) && (EndsFree([t]) <==> t.free) && (StartsFree([t]) <==> t.free)
  {
  }

  lemma MergeWellTiled(pre: seq<Tile>, t: Tile, post: seq<Tile>, lo: int, hi: int)
    requires WellTiled(pre + [t] + post, lo, hi) && !t.free
    ensures WellTiled(Merge(pre, t, post), lo, hi)
  {
    hide Tiled, Coalesced;
    TiledAround(pre, t, post, lo, hi);
    CoalescedJoin(pre + [t], post);
    CoalescedJoin(pre, [t]);
    var left, right, a, b := pre, post, t.addr, t.End();
    if EndsFree(pre) {
      var l := pre[|pre| - 1];
      UnsnocTile(pre);
      left, a := DropLast(pre), l.addr;
      TiledAround(left, l, [], lo, t.addr);
      assert left + [l] + [] == pre;
      TiledEmpty(l.End(), t.addr);
      CoalescedJoin(left, [l]);
      CoalescedOne(l);
    }
    if StartsFree(post) {
      var r := post[0];
      right, b := post[1..], r.End();
      assert post == [] + [r] + right == [r] + right;
      TiledAround([], r, right, t.End(), hi);
      TiledEmpty(t.End(), r.addr);
      CoalescedJoin([r], right);
      CoalescedOne(r);
    }
    var m := Tile(a, b - a, true);
    CoalescedOne(m);
    assert Merge(pre, t, post) == left + [m] + right;
    TiledAround(left, m, right, lo, hi);
    CoalescedJoin(left, [m]);
    CoalescedJoin(left + [m], right);
    EndsFreeJoin(left, m);
  }

  lemma TiledEmpty(lo: int, hi: int)
    ensures Tiled([], lo, hi) <==> lo == hi
  {
  }

  lemma EndsFreeJoin(a: seq<Tile>, t: Tile)
    ensures EndsFree(a + [t]) <==> t.free
  {
  }

  lemma ReleaseWellTiled(ts: seq<Tile>, lo: int, hi: int, i: nat)
    requires WellTiled(ts, lo, hi) && i < |ts| && !ts[i].free
    ensures WellTiled(Release(ts, i), lo, hi)
  {
    SplitAt(ts, i);
    MergeWellTiled(ts[..i], ts[i], ts[i + 1..], lo, hi);
  }

  // ----- coalescing is complete

  /** The byte at `x` belongs to a free tile. */
  ghost predicate ByteFree(ts: seq<Tile>, x: int)
  {
    exists t :: t in ts && t.free && t.addr <= x < t.End()
  }

  ghost predicate FreeRun(ts: seq<Tile>, a: int, n: int)
  {
    forall x | a <= x < a + n :: ByteFree(ts, x)
  }

  /** A run of free bytes, wherever it starts, lies inside a single free tile. */
  lemma {:induction false} RunInOneTile(ts: seq<Tile>, lo: int, hi: int, a: int, n: int)
    requires WellTiled(ts, lo, hi) && n > 0 && FreeRun(ts, a, n)
    ensures exists t :: t in ts && t.free && t.addr <= a && a + n <= t.End()
  {
    TilesInside(ts, lo, hi);
    assert ByteFree(ts, a);
    var t, rest := ts[0], ts[1..];
    assert ts == [t] + rest;
    TilesInside(rest, t.End(), hi);
    if a >= t.End() {
      forall x | a <= x < a + n ensures ByteFree(rest, x) {
        assert ByteFree(ts, x);
      }
      CoalescedJoin([t], rest);
      RunInOneTile(rest, t.End(), hi, a, n);
    } else if a + n > t.End() {
      assert ByteFree(ts, t.End());
      var u :| u in ts && u.free && u.addr <= t.End() < u.End();
      assert u in rest;
      if u != rest[0] {
        assert rest == [rest[0]] + rest[1..];
        TilesInside(rest[1..], rest[0].End(), hi);
      }
    }
  }

  /** First fit finds a block exactly when some run of free bytes is long enough. */
  lemma FirstFitComplete(ts: seq<Tile>, lo: int, hi: int, n: int)
    requires WellTiled(ts, lo, hi) && n > 0
    ensures FirstFit(ts, n) < |ts| <==> exists a :: FreeRun(ts, a, n)
  {
    var i := FirstFit(ts, n);
    if i < |ts| {
      assert ts[i] in ts;
      assert FreeRun(ts, ts[i].addr, n);
    }
    if a :| FreeRun(ts, a, n) {
      RunInOneTile(ts, lo, hi, a, n);
      var t :| t in ts && t.free && t.addr <= a && a + n <= t.End();
      var j :| 0 <= j < |ts| && ts[j] == t;
      assert Fits(ts[j], n);
    }
  }

  // ----- live blocks

  ghost function Live(ts: seq<Tile>): set<Tile>
  {
    set t | t in ts && !t.free
  }

  lemma {:induction false} TilesOrdered(ts: seq<Tile>, lo: int, hi: int, i: nat, j: nat)
    requires Tiled(ts, lo, hi) && i < j < |ts|
    ensures ts[i].End() <= ts[j].addr
  {
    if i == 0 {
      TilesInside(ts[1..], ts[0].End(), hi);
      assert ts[j] in ts[1..];
    } else {
      TilesOrdered(ts[1..], ts[0].End(), hi, i - 1, j - 1);
    }
  }

  lemma AlignedPayload(a: int)
    requires a % 8 == 0
    ensures (a + PAYLOAD_OFFSET) % 8 == 0
  {
  }

  /** In the region every byte is free or belongs to a live block, never both. */
  lemma {:induction false} FreeOrLive(ts: seq<Tile>, lo: int, hi: int, x: int)
    requires Tiled(ts, lo, hi) && lo <= x < hi
    ensures ByteFree(ts, x) <==> !(exists t :: t in Live(ts) && t.addr <= x < t.End())
  {
    TilesInside(ts, lo, hi);
    var t, rest := ts[0], ts[1..];
    assert ts == [t] + rest;
    TilesInside(rest, t.End(), hi);
    assert t in ts && forall u :: u in rest ==> u in ts;
    if x < t.End() {
      assert forall u | u in ts && u.addr <= x < u.End() :: u == t || u in rest;
    } else {
      FreeOrLive(rest, t.End(), hi, x);
      assert ByteFree(ts, x) <==> ByteFree(rest, x);
      assert forall u :: u in Live(ts) && u.addr <= x < u.End() <==> u in Live(rest) && u.addr <= x < u.End();
    }
  }

  /**
   What is given out starts where the free tile did, is as large as asked and less than a
   least node larger, and takes no other byte: the rest of the tile stays free.
   */
  lemma AllocateSpares(ts: seq<Tile>, lo: int, hi: int, i: nat, n: int)
    requires Tiled(ts, lo, hi) && i < |ts| && Fits(ts[i], n) && n >= MIN_NODE_SIZE && n % 8 == 0
    ensures var block := Pieces(ts[i], n)[0];
            && block.addr == ts[i].addr && !block.free && n <= block.size < n + MIN_NODE_SIZE
            && forall x :: ByteFree(Allocate(ts, i, n), x) <==> ByteFree(ts, x) && !(block.addr <= x < block.End())
  {
    hide Tiled;
    var pre, t, post, ps := ts[..i], ts[i], ts[i + 1..], Pieces(ts[i], n);
    SplitAt(ts, i);
    TiledAround(pre, t, post, lo, hi);
    TilesInside(pre, lo, t.addr);
    TilesInside(post, t.End(), hi);
    var block := ps[0];
    forall x ensures ByteFree(Allocate(ts, i, n), x) <==> ByteFree(ts, x) && !(block.addr <= x < block.End()) {
      ByteFreeConcat(pre + ps, post, x);
      ByteFreeConcat(pre, ps, x);
      ByteFreeConcat(pre + [t], post, x);
      ByteFreeConcat(pre, [t], x);
      PiecesFree(t, n, x);
    }
  }

  lemma ByteFreeConcat(a: seq<Tile>, b: seq<Tile>, x: int)
    ensures ByteFree(a + b, x) <==> ByteFree(a, x) || ByteFree(b, x)
  {
    assert forall t :: t in a + b <==> t in a || t in b;
  }

  lemma PiecesFree(t: Tile, n: int, x: int)
    requires Fits(t, n) && n >= MIN_NODE_SIZE
    ensures ByteFree([t], x) <==> t.addr <= x < t.End()
    ensures ByteFree(Pieces(t, n), x) <==> t.addr <= x < t.End() && !(Pieces(t, n)[0].addr <= x < Pieces(t, n)[0].End())
  {
    assert t in [t];
    var ps := Pieces(t, n);
    if |ps| == 2 {
      assert ps[1] in ps;
    }
  }

  /** Payloads start on eight-byte boundaries and do not overlap, nor do the headers before them. */
  lemma LiveBlocksDisjoint(ts: seq<Tile>, lo: int, hi: int, s: Tile, t: Tile)
    requires Tiled(ts, lo, hi) && s in ts && t in ts && s != t
    ensures s.End() <= t.addr || t.End() <= s.addr
    ensures (s.addr + PAYLOAD_OFFSET) % 8 == 0 && lo <= s.addr && s.End() <= hi
  {
    hide Tiled;
    TilesInside(ts, lo, hi);
    AlignedPayload(s.addr);
    var i :| 0 <= i < |ts| && ts[i] == s;
    var j :| 0 <= j < |ts| && ts[j] == t;
    if i < j {
      TilesOrdered(ts, lo, hi, i, j);
    } else {
      TilesOrdered(ts, lo, hi, j, i);
    }
  }

  /** Allocation adds one live block and disturbs no other. */
  lemma AllocateLive(ts: seq<Tile>, i: nat, n: int)
    requires i < |ts| && ts[i].free
    ensures Live(Allocate(ts, i, n)) == Live(ts) + {Pieces(ts[i], n)[0]}
  {
    SplitAt(ts, i);
    var pre, t, post, ps := ts[..i], ts[i], ts[i + 1..], Pieces(ts[i], n);
    assert forall u :: u in pre + ps + post <==> u in pre || u in ps || u in post;
    assert forall u :: u in pre + [t] + post <==> u in pre || u == t || u in post;
    assert ps[0] in ps;
  }

  lemma LiveConcat(a: seq<Tile>, b: seq<Tile>)
    ensures Live(a + b) == Live(a) + Live(b)
  {
    assert forall t :: t in a + b <==> t in a || t in b;
  }

  lemma LiveOnly(ts: seq<Tile>, t: Tile)
    requires t !in ts
    ensures t !in Live(ts)
  {
  }

  lemma LiveOne(t: Tile)
    ensures Live([t]) == if t.free then {} else {t}
  {
  }

  lemma LiveBefore(pre: seq<Tile>)
    ensures Live(if EndsFree(pre) then DropLast(pre) else pre) == Live(pre)
  {
    hide Live;
    if EndsFree(pre) {
      UnsnocTile(pre);
      LiveConcat(DropLast(pre), [pre[|pre| - 1]]);
      LiveOne(pre[|pre| - 1]);
    }
  }

  lemma LiveAfter(post: seq<Tile>)
    ensures Live(if StartsFree(post) then post[1..] else post) == Live(post)
  {
    hide Live;
    if StartsFree(post) {
      assert post == [post[0]] + post[1..];
      LiveConcat([post[0]], post[1..]);
      LiveOne(post[0]);
    }
  }

  /** A merge keeps every live block but the one that is given back. */
  lemma MergeLive(pre: seq<Tile>, t: Tile, post: seq<Tile>)
    ensures Live(Merge(pre, t, post)) == Live(pre) + Live(post)
  {
    hide Live;
    var left := if EndsFree(pre) then DropLast(pre) else pre;
    var right := if StartsFree(post) then post[1..] else post;
    var m := Merge(pre, t, post)[|left|];
    LiveBefore(pre);
    LiveAfter(post);
    LiveConcat(left + [m], right);
    LiveConcat(left, [m]);
    LiveOne(m);
  }

  /** Freeing removes that live block and disturbs no other. */
  lemma ReleaseLive(ts: seq<Tile>, lo: int, hi: int, i: nat)
    requires Tiled(ts, lo, hi) && i < |ts| && !ts[i].free
    ensures Live(Release(ts, i)) == Live(ts) - {ts[i]}
  {
    hide Tiled, Live, Merge;
    var pre, t, post := ts[..i], ts[i], ts[i + 1..];
    SplitAt(ts, i);
    TiledAround(pre, t, post, lo, hi);
    TilesInside(pre, lo, t.addr);
    TilesInside(post, t.End(), hi);
    assert t !in pre && t !in post;
    LiveOnly(pre, t);
    LiveOnly(post, t);
    LiveConcat(pre + [t], post);
    LiveConcat(pre, [t]);
    LiveOne(t);
    MergeLive(pre, t, post);
  }

  /** With nothing live, coalescing leaves the single tile the heap began with. */
  lemma NothingLive(ts: seq<Tile>, lo: int, hi: int)
    requires WellTiled(ts, lo, hi) && lo < hi && Live(ts) == {}
    ensures ts == [Tile(lo, hi - lo, true)]
  {
    assert forall t | t in ts :: t.free <==> t !in Live(ts);
    assert ts == [ts[0]] && ts[0] in ts;
    TiledOne(ts[0], lo, hi);
  }

  // ----- runs

  datatype HeapOp = AllocOp(size: nat) | FreeOp(block: Tile)

  ghost function IndexOf(ts: seq<Tile>, t: Tile): (i: nat)
    requires t in ts
    ensures i < |ts| && ts[i] == t
  {
    var i :| 0 <= i < |ts| && ts[i] == t;
    i
  }

  /** Sizes are positive and only live blocks are freed. */
  ghost predicate LegalOp(ts: seq<Tile>, op: HeapOp)
  {
    match op
    case AllocOp(size) => size >= 1
    case FreeOp(block) => block in Live(ts)
  }

  ghost function StepHeap(ts: seq<Tile>, op: HeapOp): (ts': seq<Tile>)
    requires LegalOp(ts, op)
  {
    match op
    case AllocOp(size) =>
      var i := FirstFit(ts, Rounded(size));
      if i < |ts| then Allocate(ts, i, Rounded(size)) else ts
    case FreeOp(block) => Release(ts, IndexOf(ts, block))
  }

  ghost predicate LegalRun(ts: seq<Tile>, ops: seq<HeapOp>)
    decreases |ops|
  {
    ops == [] || (LegalOp(ts, ops[0]) && LegalRun(StepHeap(ts, ops[0]), ops[1..]))
  }

  ghost function RunHeap(ts: seq<Tile>, ops: seq<HeapOp>): (ts': seq<Tile>)
    requires LegalRun(ts, ops)
    decreases |ops|
  {
    if ops == [] then ts else RunHeap(StepHeap(ts, ops[0]), ops[1..])
  }

  lemma StepWellTiled(ts: seq<Tile>, lo: int, hi: int, op: HeapOp)
    requires WellTiled(ts, lo, hi) && LegalOp(ts, op)
    ensures WellTiled(StepHeap(ts, op), lo, hi)
  {
    match op
    case AllocOp(size) =>
      var n := Rounded(size);
      var i := FirstFit(ts, n);
      if i < |ts| {
        AllocateWellTiled(ts, lo, hi, i, n);
      }
    case FreeOp(block) =>
      ReleaseWellTiled(ts, lo, hi, IndexOf(ts, block));
  }

  /** Every run keeps the region exactly tiled and fully coalesced. */
  lemma {:induction false} RunWellTiled(ts: seq<Tile>, lo: int, hi: int, ops: seq<HeapOp>)
    requires WellTiled(ts, lo, hi) && LegalRun(ts, ops)
    ensures WellTiled(RunHeap(ts, ops), lo, hi)
    decreases |ops|
  {
    if ops != [] {
      StepWellTiled(ts, lo, hi, ops[0]);
      RunWellTiled(StepHeap(ts, ops[0]), lo, hi, ops[1..]);
    }
  }

  /** Whenever a run has freed everything it allocated, the heap is as it was at the start. */
  lemma RunRestores(lo: int, hi: int, ops: seq<HeapOp>)
    requires lo % 8 == 0 && hi - lo >= NODE_HEADER
    requires LegalRun([Tile(lo, hi - lo, true)], ops)
    requires Live(RunHeap([Tile(lo, hi - lo, true)], ops)) == {}
    ensures RunHeap([Tile(lo, hi - lo, true)], ops) == [Tile(lo, hi - lo, true)]
  {
    var start := [Tile(lo, hi - lo, true)];
    TiledOne(start[0], lo, hi);
    RunWellTiled(start, lo, hi, ops);
    NothingLive(RunHeap(start, ops), lo, hi);
  }

  /** Freeing all live blocks, in whatever order, is legal and restores the initial tile. */
  lemma {:induction false} FreeAllRestores(ts: seq<Tile>, lo: int, hi: int, order: seq<Tile>)
    requires WellTiled(ts, lo, hi) && lo < hi
    requires forall t :: t in order <==> t in Live(ts)
    requires forall i, j | 0 <= i < j < |order| :: order[i] != order[j]
    ensures var ops := seq(|order|, i requires 0 <= i < |order| => FreeOp(order[i]));
            LegalRun(ts, ops) && RunHeap(ts, ops) == [Tile(lo, hi - lo, true)]
    decreases |order|
  {
    hide Tiled, Release;
    var ops := seq(|order|, i requires 0 <= i < |order| => FreeOp(order[i]));
    if order == [] {
      assert Live(ts) == {};
      NothingLive(ts, lo, hi);
    } else {
      var t, rest := order[0], order[1..];
      assert t in order;
      var ts' := StepHeap(ts, ops[0]);
      StepWellTiled(ts, lo, hi, ops[0]);
      ReleaseLive(ts, lo, hi, IndexOf(ts, t));
      assert order == [t] + rest;
      assert t !in rest;
      FreeAllRestores(ts', lo, hi, rest);
      assert ops[1..] == seq(|rest|, i requires 0 <= i < |rest| => FreeOp(rest[i]));
    }
  }
}
