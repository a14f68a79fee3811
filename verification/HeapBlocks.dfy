/** Memory blocks with a header, as byte ranges: tiling a region, and a ring of free blocks in address order. */
module HeapBlocks {
  import opened Counting

  const HEADER: nat := 8
  const NULL: nat := 0

  /** Rounded up to a multiple of four. */
  function Round4(size: nat): (r: nat)
    ensures r % 4 == 0 && size <= r < size + 4
  {
    if size % 4 != 0 then size + 4 - size % 4 else size
  }

  /** Header addresses to payload sizes. */
  type Blocks = map<nat, nat>

  ghost function End(blocks: Blocks, a: nat): nat
    requires a in blocks
  {
    a + HEADER + blocks[a]
  }

  ghost predicate Covers(blocks: Blocks, a: nat, x: nat) {
    a in blocks && a <= x < End(blocks, a)
  }

  ghost predicate Covered(blocks: Blocks, x: nat) {
    exists a :: Covers(blocks, a, x)
  }

  ghost predicate Disjoint(blocks: Blocks) {
    forall a, b :: a in blocks && b in blocks && a < b ==> End(blocks, a) <= b
  }

  /** The blocks with their headers are pairwise disjoint and fill [lo, hi) exactly. */
  ghost predicate Tiles(blocks: Blocks, lo: nat, hi: nat) {
    && (forall a :: a in blocks ==> lo <= a && End(blocks, a) <= hi)
    && Disjoint(blocks)
    && (forall x: nat :: lo <= x < hi ==> Covered(blocks, x))
  }

  ghost function Merged(blocks: Blocks, a: nat, b: nat): Blocks
    requires a in blocks && b in blocks
  {
    (blocks - {b})[a := blocks[a] + HEADER + blocks[b]]
  }

  /** A new block on top of the region. */
  lemma TilesGrow(blocks: Blocks, lo: nat, hi: nat, s: nat)
    requires Tiles(blocks, lo, hi) && lo <= hi
    ensures hi !in blocks && Tiles(blocks[hi := s], lo, hi + HEADER + s)
  {
    var m := blocks[hi := s];
    forall x: nat | lo <= x < hi + HEADER + s ensures Covered(m, x) {
      if x < hi {
        assert Covered(blocks, x);
        var a :| Covers(blocks, a, x);
        assert Covers(m, a, x);
      } else {
        assert Covers(m, hi, x);
      }
    }
  }

  /** Two adjacent blocks become one; the swallowed header counts as payload. */
  lemma TilesMerge(blocks: Blocks, a: nat, b: nat, lo: nat, hi: nat)
    requires Tiles(blocks, lo, hi) && a in blocks && b in blocks && End(blocks, a) == b
    ensures Tiles(Merged(blocks, a, b), lo, hi)
  {
    hide Covered, Covers, Disjoint;
    var m := Merged(blocks, a, b);
    MergedDisjoint(blocks, a, b);
    forall x: nat | lo <= x < hi ensures Covered(m, x) {
      MergedCovers(blocks, a, b, x);
    }
  }

  lemma MergedDisjoint(blocks: Blocks, a: nat, b: nat)
    requires Disjoint(blocks) && a in blocks && b in blocks && End(blocks, a) == b
    ensures Disjoint(Merged(blocks, a, b))
  {
    var m := Merged(blocks, a, b);
    forall c, d | c in m && d in m && c < d ensures End(m, c) <= d {
      assert c == a ==> b < d;
    }
  }

  lemma MergedCovers(blocks: Blocks, a: nat, b: nat, x: nat)
    requires Covered(blocks, x) && a in blocks && b in blocks && End(blocks, a) == b
    ensures Covered(Merged(blocks, a, b), x)
  {
    var c: nat :| Covers(blocks, c, x);
    assert Covers(Merged(blocks, a, b), if c == b then a else c, x);
  }

  /** A block is cut in two: r bytes stay in front, s bytes behind a new header. */
  lemma TilesSplit(blocks: Blocks, a: nat, r: nat, s: nat, lo: nat, hi: nat)
    requires Tiles(blocks, lo, hi) && a in blocks && blocks[a] == r + HEADER + s
    ensures var b := a + HEADER + r; b !in blocks && Tiles(blocks[a := r][b := s], lo, hi)
  {
    hide Covered, Covers, Disjoint;
    var b := a + HEADER + r;
    var m := blocks[a := r][b := s];
    SplitDisjoint(blocks, a, r, s);
    forall x: nat | lo <= x < hi ensures Covered(m, x) {
      SplitCovers(blocks, a, r, s, x);
    }
  }

  lemma SplitDisjoint(blocks: Blocks, a: nat, r: nat, s: nat)
    requires Disjoint(blocks) && a in blocks && blocks[a] == r + HEADER + s
    ensures var b := a + HEADER + r; b !in blocks && Disjoint(blocks[a := r][b := s])
  {
    var b := a + HEADER + r;
    var m := blocks[a := r][b := s];
    assert b !in blocks;
    forall c, d | c in m && d in m && c < d ensures End(m, c) <= d {
      assert c == b ==> End(blocks, a) == End(m, b);
    }
  }

  lemma SplitCovers(blocks: Blocks, a: nat, r: nat, s: nat, x: nat)
    requires Covered(blocks, x) && a in blocks && blocks[a] == r + HEADER + s && a + HEADER + r !in blocks
    ensures Covered(blocks[a := r][a + HEADER + r := s], x)
  {
    var b := a + HEADER + r;
    var c: nat :| Covers(blocks, c, x);
    assert Covers(blocks[a := r][b := s], if c == a && x >= b then b else c, x);
  }

  // Blocks of a tiled region follow each other without a gap.

  lemma InTiles(blocks: Blocks, a: nat, lo: nat, hi: nat)
    requires Tiles(blocks, lo, hi) && a in blocks
    ensures lo <= a && End(blocks, a) <= hi
  {
  }

  lemma FirstBlock(blocks: Blocks, lo: nat, hi: nat)
    requires Tiles(blocks, lo, hi) && lo < hi
    ensures lo in blocks
  {
    assert Covered(blocks, lo);
  }

  lemma NextBlock(blocks: Blocks, a: nat, lo: nat, hi: nat)
    requires Tiles(blocks, lo, hi) && a in blocks && End(blocks, a) < hi
    ensures End(blocks, a) in blocks
  {
    assert Covered(blocks, End(blocks, a));
    var c: nat :| Covers(blocks, c, End(blocks, a));
    assert a < c;
  }

  /** Headers, and the end of the region, lie whole words behind lo, and sizes are whole words. */
  ghost predicate InWords(blocks: Blocks, lo: nat, hi: nat) {
    (hi - lo) % 4 == 0 && forall a :: a in blocks ==> (a - lo) % 4 == 0 && blocks[a] % 4 == 0
  }

  /** Headers and payloads have the alignment of the region. */
  lemma BlockAligned(blocks: Blocks, a: nat, lo: nat, hi: nat)
    requires InWords(blocks, lo, hi) && a in blocks
    ensures a % 4 == (a + HEADER) % 4 == lo % 4
  {
    WholeWords(a - lo, lo);
  }

  lemma WholeWords(d: int, lo: int)
    requires d % 4 == 0
    ensures (lo + d) % 4 == (lo + d + HEADER) % 4 == lo % 4
  {
  }

  lemma WordsGrow(blocks: Blocks, lo: nat, hi: nat, s: nat)
    requires InWords(blocks, lo, hi) && s % 4 == 0
    ensures InWords(blocks[hi := s], lo, hi + HEADER + s)
  {
  }

  lemma WordsMerge(blocks: Blocks, a: nat, b: nat, lo: nat, hi: nat)
    requires InWords(blocks, lo, hi) && a in blocks && b in blocks
    ensures InWords(Merged(blocks, a, b), lo, hi)
  {
    SumOfWords(blocks[a], blocks[b]);
  }

  lemma WordsSplit(blocks: Blocks, a: nat, r: nat, s: nat, lo: nat, hi: nat)
    requires InWords(blocks, lo, hi) && a in blocks && blocks[a] == r + HEADER + s && s % 4 == 0
    ensures InWords(blocks[a := r][a + HEADER + r := s], lo, hi)
  {
    RestOfWords(blocks[a], s);
    SumOfWords(a - lo, r);
  }

  lemma SumOfWords(x: int, y: int)
    requires x % 4 == 0 && y % 4 == 0
    ensures (x + HEADER + y) % 4 == 0
  {
  }

  lemma RestOfWords(x: int, y: int)
    requires x % 4 == 0 && y % 4 == 0
    ensures (x - HEADER - y) % 4 == 0
  {
  }

  // ----- the free ring -----

  ghost function After(ring: seq<nat>, i: nat): nat
    requires i < |ring|
  {
    if i + 1 < |ring| then ring[i + 1] else ring[0]
  }

  /** The index of the member in front of ring[k]. */
  function Before(ring: seq<nat>, k: nat): nat
    requires k < |ring|
  {
    if k == 0 then |ring| - 1 else k - 1
  }

  /** Behind the base ring[0], which lies outside the region [lo, hi], the ring ascends inside it. */
  ghost predicate Ascending(ring: seq<nat>, lo: nat, hi: nat) {
    && ring != [] && (ring[0] + HEADER < lo || hi < ring[0])
    && (forall i :: 1 <= i < |ring| ==> lo <= ring[i] < hi)
    && (forall i, j :: 1 <= i < j < |ring| ==> ring[i] < ring[j])
  }

  lemma AscendingDistinct(ring: seq<nat>, lo: nat, hi: nat)
    requires Ascending(ring, lo, hi)
    ensures Distinct(ring)
  {
  }

  /** The place of a new block: after ring[i] and before its successor. */
  ghost predicate GapAt(ring: seq<nat>, bp: nat, i: nat)
    requires i < |ring|
  {
    (i == 0 || ring[i] < bp) && (i + 1 == |ring| || bp < ring[i + 1])
  }

  /** The test with which tj_free leaves its scan. */
  predicate Stops(bp: nat, p: nat, q: nat) {
    (bp > p && bp < q) || (p >= q && (bp > p || bp < q))
  }

  lemma StopsExactlyAtGap(ring: seq<nat>, bp: nat, i: nat, lo: nat, hi: nat)
    requires Ascending(ring, lo, hi) && lo <= bp < hi && bp !in ring && i < |ring|
    ensures Stops(bp, ring[i], After(ring, i)) <==> GapAt(ring, bp, i)
  {
  }

  lemma {:induction false} GapExists(ring: seq<nat>, bp: nat, lo: nat, hi: nat) returns (k: nat)
    requires Ascending(ring, lo, hi) && bp !in ring
    ensures k < |ring| && GapAt(ring, bp, k)
    decreases |ring|
  {
    var last := |ring| - 1;
    if last == 0 || ring[last] < bp {
      k := last;
    } else {
      k := GapExists(ring[..last], bp, lo, hi);
    }
  }

  /** A new block has one place in the ring. */
  lemma OneGap(ring: seq<nat>, bp: nat, i: nat, j: nat, lo: nat, hi: nat)
    requires Ascending(ring, lo, hi) && i < |ring| && j < |ring| && GapAt(ring, bp, i) && GapAt(ring, bp, j)
    ensures i == j
  {
  }

  // While a block is being linked in, `open` is the index of its predecessor, whose link and
  // adjacency are not settled yet; otherwise open is -1.

  /** Following next from ring[0] visits the ring in order and comes back to ring[0]. */
  ghost predicate Linked(next: map<nat, nat>, ring: seq<nat>, open: int) {
    forall i :: 0 <= i < |ring| && i != open ==> ring[i] in next && next[ring[i]] == After(ring, i)
  }

  lemma NextOf(next: map<nat, nat>, ring: seq<nat>, i: nat, open: int)
    requires Linked(next, ring, open) && i < |ring| && i != open
    ensures ring[i] in next && next[ring[i]] == After(ring, i)
  {
  }

  /** Behind ring[0] the ring holds blocks, each ending short of the next one. */
  ghost predicate Apart(blocks: Blocks, ring: seq<nat>, open: int) {
    && (forall i :: 1 <= i < |ring| ==> ring[i] in blocks)
    && (forall i, j :: 1 <= i && j == i + 1 && j < |ring| && i != open ==> End(blocks, ring[i]) < ring[j])
  }

  /** Fully coalesced: no block of the ring ends where another block of it begins. */
  lemma ApartIsCoalesced(blocks: Blocks, ring: seq<nat>, lo: nat, hi: nat)
    requires Ascending(ring, lo, hi) && Apart(blocks, ring, -1)
    ensures forall i, j :: 1 <= i < |ring| && 1 <= j < |ring| ==> End(blocks, ring[i]) != ring[j]
  {
    forall i, j | 1 <= i < |ring| && 1 <= j < |ring| ensures End(blocks, ring[i]) != ring[j] {
      if i < j { assert End(blocks, ring[i]) < ring[i + 1] <= ring[j]; }
    }
  }

  ghost function InsertAfter(ring: seq<nat>, i: nat, bp: nat): (r: seq<nat>)
    requires i < |ring|
    ensures |r| == |ring| + 1 && r[i + 1] == bp
    ensures forall j :: 0 <= j <= i ==> r[j] == ring[j]
    ensures forall j :: i + 1 < j < |r| ==> r[j] == ring[j - 1]
  {
    ring[..i + 1] + [bp] + ring[i + 1..]
  }

  ghost function RemoveAt(ring: seq<nat>, k: nat): (r: seq<nat>)
    requires k < |ring|
    ensures |r| == |ring| - 1
    ensures forall j :: 0 <= j < k ==> r[j] == ring[j]
    ensures forall j :: k <= j < |r| ==> r[j] == ring[j + 1]
  {
    ring[..k] + ring[k + 1..]
  }

  // Linking a block into its gap.

  lemma InsertAscends(ring: seq<nat>, i: nat, bp: nat, lo: nat, hi: nat)
    requires Ascending(ring, lo, hi) && lo <= bp < hi && bp !in ring && i < |ring| && GapAt(ring, bp, i)
    ensures Ascending(InsertAfter(ring, i, bp), lo, hi)
  {
  }

  lemma InsertLinks(next: map<nat, nat>, ring: seq<nat>, i: nat, bp: nat)
    requires Linked(next, ring, -1) && i < |ring| && bp !in ring
    ensures Linked(next[bp := After(ring, i)], InsertAfter(ring, i, bp), i)
  {
  }

  lemma InsertApart(blocks: Blocks, ring: seq<nat>, i: nat, bp: nat)
    requires Apart(blocks, ring, -1) && i < |ring| && bp in blocks && (i + 1 < |ring| ==> End(blocks, bp) < ring[i + 1])
    ensures Apart(blocks, InsertAfter(ring, i, bp), i)
  {
  }

  // Joining the upper neighbour: the block takes the place and the link of its successor.

  lemma ReplaceAscends(ring: seq<nat>, i: nat, bp: nat, lo: nat, hi: nat)
    requires Ascending(ring, lo, hi) && lo <= bp < hi && i + 1 < |ring| && GapAt(ring, bp, i)
    ensures Ascending(ring[i + 1 := bp], lo, hi)
  {
  }

  lemma ReplaceLinks(next: map<nat, nat>, ring: seq<nat>, i: nat, bp: nat)
    requires Linked(next, ring, -1) && i + 1 < |ring| && bp !in ring
    ensures Linked(next[bp := After(ring, i + 1)], ring[i + 1 := bp], i)
  {
  }

  lemma ReplaceApart(blocks: Blocks, ring: seq<nat>, i: nat, bp: nat, lo: nat, hi: nat)
    requires Ascending(ring, lo, hi) && Apart(blocks, ring, -1) && i + 1 < |ring|
    requires bp in blocks && bp !in ring && End(blocks, bp) == ring[i + 1]
    ensures Apart(Merged(blocks, bp, ring[i + 1]), ring[i + 1 := bp], i)
  {
  }

  // Linking the predecessor to the block, or letting it swallow the block.

  lemma LinkLinks(next: map<nat, nat>, ring: seq<nat>, i: nat)
    requires Distinct(ring) && Linked(next, ring, i) && i + 1 < |ring|
    ensures Linked(next[ring[i] := ring[i + 1]], ring, -1)
  {
    forall j | 0 <= j < |ring| && j != i
      ensures ring[j] != ring[i] && ring[j] in next && next[ring[j]] == After(ring, j)
    {
      assert if j < i then ring[j] != ring[i] else ring[i] != ring[j];
    }
  }

  lemma LinkApart(blocks: Blocks, ring: seq<nat>, i: nat)
    requires Apart(blocks, ring, i) && i + 1 < |ring| && (i == 0 || End(blocks, ring[i]) < ring[i + 1])
    ensures Apart(blocks, ring, -1)
  {
  }

  lemma RemoveAscends(ring: seq<nat>, k: nat, lo: nat, hi: nat)
    requires Ascending(ring, lo, hi) && 1 <= k < |ring|
    ensures Ascending(RemoveAt(ring, k), lo, hi)
  {
  }

  lemma RemoveLinks(next: map<nat, nat>, ring: seq<nat>, k: nat, open: int)
    requires Distinct(ring) && |ring| > 1 && k < |ring|
    requires Linked(next, ring, open) && (open == -1 || open == Before(ring, k))
    ensures Linked(next[ring[Before(ring, k)] := After(ring, k)], RemoveAt(ring, k), -1)
  {
  }

  lemma RemoveApart(blocks: Blocks, ring: seq<nat>, k: nat, lo: nat, hi: nat)
    requires Ascending(ring, lo, hi) && Apart(blocks, ring, -1) && 1 <= k < |ring|
    ensures Apart(blocks, RemoveAt(ring, k), -1)
  {
    var r := RemoveAt(ring, k);
    if 2 <= k && k + 1 < |ring| {
      assert End(blocks, ring[k - 1]) < ring[k] < ring[k + 1];
    }
  }

  lemma SwallowApart(blocks: Blocks, ring: seq<nat>, i: nat, lo: nat, hi: nat)
    requires Ascending(ring, lo, hi) && Apart(blocks, ring, i)
    requires 1 <= i && i + 1 < |ring| && End(blocks, ring[i]) == ring[i + 1]
    ensures Apart(Merged(blocks, ring[i], ring[i + 1]), RemoveAt(ring, i + 1), -1)
  {
    var m, r := Merged(blocks, ring[i], ring[i + 1]), RemoveAt(ring, i + 1);
    forall x | 1 <= x < |r| ensures r[x] in m {
      assert r[x] == ring[if x <= i then x else x + 1];
    }
    forall x, y | 1 <= x && y == x + 1 && y < |r| ensures End(m, r[x]) < r[y] {
      if x == i { assert End(blocks, ring[i + 1]) < ring[i + 2]; }
    }
  }

  /** Cutting s bytes and a header off the end of a free block. */
  lemma ShrinkApart(blocks: Blocks, ring: seq<nat>, k: nat, r: nat, s: nat, lo: nat, hi: nat)
    requires Tiles(blocks, lo, hi) && Ascending(ring, lo, hi) && Apart(blocks, ring, -1) && 1 <= k < |ring|
    requires blocks[ring[k]] == r + HEADER + s
    ensures var b := ring[k] + HEADER + r; b !in ring && Apart(blocks[ring[k] := r][b := s], ring, -1)
  {
    TilesSplit(blocks, ring[k], r, s, lo, hi);
    var b := ring[k] + HEADER + r;
  }

  // ----- live blocks -----

  /** The blocks outside the ring. */
  ghost function LiveOf(blocks: Blocks, ring: seq<nat>): Blocks {
    map a | a in blocks && a !in ring :: blocks[a]
  }

  lemma InsertLive(blocks: Blocks, ring: seq<nat>, i: nat, bp: nat)
    requires i < |ring|
    ensures LiveOf(blocks, InsertAfter(ring, i, bp)) == LiveOf(blocks, ring) - {bp}
  {
    var r := InsertAfter(ring, i, bp);
    forall a ensures a in r <==> a in ring || a == bp {
      if a in ring {
        var j :| 0 <= j < |ring| && ring[j] == a;
        assert r[if j <= i then j else j + 1] == a;
      }
    }
  }

  lemma ReplaceLive(blocks: Blocks, ring: seq<nat>, i: nat, bp: nat, lo: nat, hi: nat)
    requires Ascending(ring, lo, hi) && i + 1 < |ring| && bp in blocks && bp !in ring && ring[i + 1] in blocks
    ensures LiveOf(Merged(blocks, bp, ring[i + 1]), ring[i + 1 := bp]) == LiveOf(blocks, ring) - {bp}
  {
    var r, q := ring[i + 1 := bp], ring[i + 1];
    forall a ensures a in r <==> a == bp || (a in ring && a != q) {
      if a in ring && a != q {
        var j :| 0 <= j < |ring| && ring[j] == a;
        assert r[j] == a;
      }
      if a == bp { assert r[i + 1] == a; }
    }
  }

  lemma ElementsAfterRemove(ring: seq<nat>, k: nat, lo: nat, hi: nat)
    requires Ascending(ring, lo, hi) && 1 <= k < |ring|
    ensures forall a :: a in RemoveAt(ring, k) <==> a in ring && a != ring[k]
  {
    var r := RemoveAt(ring, k);
    forall a | a in ring && a != ring[k] ensures a in r {
      var j :| 0 <= j < |ring| && ring[j] == a;
      assert r[if j < k then j else j - 1] == a;
    }
  }

  lemma ShrinkLive(blocks: Blocks, ring: seq<nat>, k: nat, r: nat, b: nat, s: nat)
    requires k < |ring| && b !in ring
    ensures LiveOf(blocks[ring[k] := r][b := s], ring) == LiveOf(blocks, ring)[b := s]
  {
  }

  lemma RemoveLive(blocks: Blocks, ring: seq<nat>, k: nat, lo: nat, hi: nat)
    requires Ascending(ring, lo, hi) && 1 <= k < |ring| && ring[k] in blocks
    ensures LiveOf(blocks, RemoveAt(ring, k)) == LiveOf(blocks, ring)[ring[k] := blocks[ring[k]]]
  {
    ElementsAfterRemove(ring, k, lo, hi);
  }

  lemma SwallowLive(blocks: Blocks, ring: seq<nat>, i: nat, lo: nat, hi: nat)
    requires Ascending(ring, lo, hi) && 1 <= i && i + 1 < |ring| && ring[i] in blocks && ring[i + 1] in blocks
    ensures LiveOf(Merged(blocks, ring[i], ring[i + 1]), RemoveAt(ring, i + 1)) == LiveOf(blocks, ring)
  {
    ElementsAfterRemove(ring, i + 1, lo, hi);
  }

  // ----- one lap -----

  /** The ring from just behind ring[f] round to ring[f] itself. */
  ghost function Lap(ring: seq<nat>, f: nat): seq<nat>
    requires f < |ring|
  {
    ring[f + 1..] + ring[..f + 1]
  }

  lemma LapElements(ring: seq<nat>, f: nat)
    requires f < |ring|
    ensures |Lap(ring, f)| == |ring| && forall a :: a in Lap(ring, f) <==> a in ring
  {
    assert ring == ring[..f + 1] + ring[f + 1..];
  }

  /** The lap meets ring[f] only at its end. */
  lemma LapEndsOnce(ring: seq<nat>, f: nat, lo: nat, hi: nat)
    requires Ascending(ring, lo, hi) && f < |ring|
    ensures |Lap(ring, f)| == |ring| && Lap(ring, f)[|ring| - 1] == ring[f]
    ensures forall v :: 0 <= v < |ring| - 1 ==> Lap(ring, f)[v] != ring[f]
  {
    forall v | 0 <= v < |ring| - 1 ensures Lap(ring, f)[v] != ring[f] {
      var i := if v < |ring| - (f + 1) then f + 1 + v else v - (|ring| - (f + 1));
      assert Lap(ring, f)[v] == ring[i] && i != f;
    }
  }

  lemma LapFollowsLinks(next: map<nat, nat>, ring: seq<nat>, f: nat)
    requires Linked(next, ring, -1) && f < |ring|
    ensures var lap := Lap(ring, f);
      && |lap| == |ring| && lap[|lap| - 1] == ring[f] && next[ring[f]] == lap[0]
      && (forall v :: 0 <= v < |lap| ==> lap[v] in ring)
      && (forall v, w :: 0 <= v && w == v + 1 && w < |lap| ==> lap[v] in next && next[lap[v]] == lap[w])
    ensures forall a :: a in ring ==> a in Lap(ring, f)
  {
    var lap := Lap(ring, f);
    LapElements(ring, f);
    forall v, w | 0 <= v && w == v + 1 && w < |lap| ensures lap[v] in next && next[lap[v]] == lap[w] {
      var i := if v < |ring| - (f + 1) then f + 1 + v else v - (|ring| - (f + 1));
      assert lap[v] == ring[i] && lap[w] == After(ring, i);
    }
    NextOf(next, ring, f, -1);
  }

  /** p, reached from prevp, stands at position v of the lap from ring[f]. */
  ghost predicate OnLap(ring: seq<nat>, f: nat, v: nat, prevp: nat, p: nat) {
    && f < |ring| && v < |ring|
    && p == Lap(ring, f)[v] && prevp == if v == 0 then ring[f] else Lap(ring, f)[v - 1]
  }

  lemma StartLap(next: map<nat, nat>, ring: seq<nat>, freep: nat) returns (f: nat)
    requires Linked(next, ring, -1) && freep in ring
    ensures f < |ring| && ring[f] == freep && freep in next && OnLap(ring, f, 0, freep, next[freep])
  {
    f :| 0 <= f < |ring| && ring[f] == freep;
    LapFollowsLinks(next, ring, f);
    NextOf(next, ring, f, -1);
  }

  /** The place reached and its successor: the lap ends where it began, and only there. */
  lemma AtLap(next: map<nat, nat>, ring: seq<nat>, f: nat, v: nat, prevp: nat, p: nat, lo: nat, hi: nat)
    requires Ascending(ring, lo, hi) && Linked(next, ring, -1) && OnLap(ring, f, v, prevp, p)
    ensures p in ring && p in next && prevp in ring && prevp in next && next[prevp] == p
    ensures p == ring[f] <==> v == |ring| - 1
    ensures p != ring[f] ==> OnLap(ring, f, v + 1, p, next[p])
  {
    LapFollowsLinks(next, ring, f);
    LapEndsOnce(ring, f, lo, hi);
    var lap := Lap(ring, f);
    if v > 0 { assert next[lap[v - 1]] == lap[v]; }
    if v < |ring| - 1 { assert next[lap[v]] == lap[v + 1]; }
    var i :| 0 <= i < |ring| && ring[i] == p;
    NextOf(next, ring, i, -1);
    var j :| 0 <= j < |ring| && ring[j] == prevp;
    NextOf(next, ring, j, -1);
  }

  /** The predecessor of a member stands right before it. */
  lemma IndexOf(next: map<nat, nat>, ring: seq<nat>, prevp: nat, p: nat) returns (k: nat)
    requires Linked(next, ring, -1) && prevp in ring && prevp in next && next[prevp] == p && p in ring
    ensures k < |ring| && ring[k] == p && ring[Before(ring, k)] == prevp
  {
    var j :| 0 <= j < |ring| && ring[j] == prevp;
    NextOf(next, ring, j, -1);
    k := if j + 1 < |ring| then j + 1 else 0;
  }

  /** p is the member of the ring behind which bp belongs. */
  ghost predicate PlaceOf(ring: seq<nat>, bp: nat, p: nat, i: nat) {
    i < |ring| && ring[i] == p && GapAt(ring, bp, i)
  }

  /** The scan of tj_free: the free block (or base) after which bp belongs. */
  method FindPlace(next: map<nat, nat>, freep: nat, bp: nat, ghost ring: seq<nat>, ghost lo: nat, ghost hi: nat)
    returns (p: nat)
    requires Ascending(ring, lo, hi) && Linked(next, ring, -1) && freep in ring
    requires lo <= bp < hi && bp !in ring
    ensures exists i: nat :: PlaceOf(ring, bp, p, i)
  {
    hide Linked, Ascending, GapAt, Stops;
    ghost var k := GapExists(ring, bp, lo, hi);
    p := freep;
    ghost var i: nat :| i < |ring| && ring[i] == freep;
    NextOf(next, ring, i, -1);
    while !Stops(bp, p, next[p])
      invariant i < |ring| && ring[i] == p && p in next && next[p] == After(ring, i)
      decreases if i <= k then k - i else k + |ring| - i
    {
      StopsExactlyAtGap(ring, bp, i, lo, hi);
      StopsExactlyAtGap(ring, bp, k, lo, hi);
      p := next[p];
      i := if i + 1 < |ring| then i + 1 else 0;
      NextOf(next, ring, i, -1);
    }
    StopsExactlyAtGap(ring, bp, i, lo, hi);
    assert PlaceOf(ring, bp, p, i);
  }
}
