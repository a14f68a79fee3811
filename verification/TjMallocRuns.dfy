/**
 test_progs/tj_malloc.h, whole calls with the code's own arithmetic. From the initial heap on, every
 call keeps the blocks and the list in order exactly when no adjacency test of tj_free misfires and
 no block is cut. The ghost fields follow the headers up to and including the first such call, except
 that a cut may overwrite one link, by a store that is modelled.
 */
module TjMallocRuns {
  import opened Counting
  import opened HeapBlocks
  import opened TjMallocAsWritten

  /** Astray: the scan goes on along a list that is no longer in order. */
  datatype Result = Null | Block(mem: nat) | Astray

  /** The payload address behind a header. */
  function Payload(header: nat): nat { (header + HEADER) % UINT_MAX_PLUS_1 }

  /** The word that holds the size of a header, four bytes on: also the link of a header standing there. */
  function SizeWord(header: nat): nat { (header + 4) % UINT_MAX_PLUS_1 }

  /** Whatever is handed out, its header, size word and payload have the alignment of p. */
  lemma TakenAligned(blocks: Blocks, p: nat, s: nat)
    ensures var header := TakenHeader(blocks, p, s);
      header % 4 == SizeWord(header) % 4 == Payload(header) % 4 == p % 4
  {
    hide Step, Remainder, SizeWord, Payload;
    StepAligned(p, Remainder(SizeOf(blocks, p), s));
    WordsOn(TakenHeader(blocks, p, s));
  }

  lemma StepAligned(a: nat, size: nat)
    ensures Step(a, size) % 4 == a % 4
  {
    ModuloAligned(a + HEADER * size, a, 2 * size);
  }

  lemma WordsOn(header: nat)
    ensures SizeWord(header) % 4 == Payload(header) % 4 == header % 4
  {
    ModuloAligned(header + 4, header, 1);
    ModuloAligned(header + HEADER, header, 2);
  }

  lemma ModuloAligned(x: nat, a: nat, words: nat)
    requires x == a + 4 * words
    ensures (x % UINT_MAX_PLUS_1) % 4 == a % 4
  {
    assert x == UINT_MAX_PLUS_1 * (x / UINT_MAX_PLUS_1) + x % UINT_MAX_PLUS_1;
  }

  /** The links after the word w has been stored to. */
  function Overwritten(next: map<nat, nat>, w: nat, value: nat): map<nat, nat> {
    if w in next then next[w := value] else next
  }

  lemma OverwrittenLinks(next: map<nat, nat>, ring: seq<nat>, w: nat, value: nat)
    requires Linked(next, ring, -1)
    ensures w in ring ==> w in next
    ensures Linked(Overwritten(next, w, value), ring, -1) <==> (w in ring ==> next[w] == value)
  {
    if w in ring {
      var i: nat :| i < |ring| && ring[i] == w;
      NextOf(next, ring, i, -1);
    }
  }

  // ----- the list while tj_free works on it -----

  /** In front of bp, in the list that tj_free is about to close, stands ring[i]. */
  lemma UpperRingDistinct(blocks: Blocks, ring: seq<nat>, i: nat, bp: nat)
    requires Distinct(ring) && bp in blocks && bp !in ring && i < |ring|
    ensures Distinct(UpperRing(blocks, ring, i, bp))
    ensures var k := PlaceIn(blocks, ring, i, bp); k > 0 && UpperRing(blocks, ring, i, bp)[k - 1] == ring[i]
  {
    hide JoinsUpper;
  }

  lemma UpperLinks(next: map<nat, nat>, blocks: Blocks, ring: seq<nat>, i: nat, bp: nat)
    requires Linked(next, ring, -1) && Distinct(ring) && bp in blocks && bp !in ring && i < |ring|
    ensures After(ring, i) in next
    ensures Linked(next[bp := if JoinsUpper(blocks, ring, i, bp) then next[After(ring, i)] else After(ring, i)],
                   UpperRing(blocks, ring, i, bp), PlaceIn(blocks, ring, i, bp) - 1)
  {
    hide JoinsUpper;
    NextOf(next, ring, if i + 1 < |ring| then i + 1 else 0, -1);
    if !JoinsUpper(blocks, ring, i, bp) || |ring| == 1 {
      InsertLinks(next, ring, i, bp);
    } else if i + 1 < |ring| {
      ReplaceLinks(next, ring, i, bp);
    } else {
      DropFirstLinks(next, ring, bp);
    }
  }

  /** bp takes the place of the first member, and its link. */
  lemma DropFirstLinks(next: map<nat, nat>, ring: seq<nat>, bp: nat)
    requires Linked(next, ring, -1) && |ring| > 1 && bp !in ring
    ensures Linked(next[bp := ring[1]], ring[1..] + [bp], |ring| - 2)
  {
  }

  /** What tj_free of bp, whose place is behind q, makes of the blocks and the list. */
  ghost predicate IsFreed(blocks0: Blocks, ring0: seq<nat>, bp: nat, q: nat, blocks: Blocks, ring: seq<nat>)
  {
    exists i: nat :: bp in blocks0 && PlaceOf(ring0, bp, q, i)
      && blocks == FreedBlocks(blocks0, ring0, i, bp) && ring == FreedRing(blocks0, ring0, i, bp)
  }

  ghost predicate InsertKeeps(blocks: Blocks, ring: seq<nat>, bp: nat)
    requires bp in blocks
  {
    forall i: nat :: i < |ring| && GapAt(ring, bp, i) ==> Harmless(blocks, ring, i, bp)
  }

  /** What taking s bytes from the member p, which stands behind q, makes of the blocks and the list. */
  ghost predicate IsTaken(blocks0: Blocks, ring0: seq<nat>, p: nat, s: nat, q: nat, blocks: Blocks, ring: seq<nat>) {
    exists k: nat :: k < |ring0| && ring0[k] == p && ring0[Before(ring0, k)] == q
      && blocks == TakenBlocks(blocks0, p, s) && ring == TakenRing(blocks0, ring0, k, s)
  }

  /**
   p, at position v of the lap that begins behind start = ring[f], is the first member of at least s
   bytes; base has size 0.
   */
  ghost predicate FitsAt(blocks: Blocks, ring: seq<nat>, start: nat, s: nat, f: nat, v: nat, p: nat) {
    && f < |ring| && ring[f] == start && v < |ring| && Lap(ring, f)[v] == p
    && SizeOf(blocks, p) >= s && SmallerBefore(blocks, ring, s, f, v)
  }

  ghost predicate SmallerBefore(blocks: Blocks, ring: seq<nat>, s: nat, f: nat, v: nat)
    requires f < |ring|
  {
    forall u :: 0 <= u < v && u < |ring| ==> SizeOf(blocks, Lap(ring, f)[u]) < s
  }

  ghost predicate FirstFits(blocks: Blocks, ring: seq<nat>, start: nat, s: nat, p: nat) {
    exists f: nat, v: nat :: FitsAt(blocks, ring, start, s, f, v, p)
  }

  ghost predicate NoneFits(blocks: Blocks, ring: seq<nat>, s: nat) {
    forall a :: a in ring ==> SizeOf(blocks, a) < s
  }

  lemma OneFirstFit(blocks: Blocks, ring: seq<nat>, start: nat, s: nat, p: nat, q: nat)
    requires Distinct(ring) && FirstFits(blocks, ring, start, s, p) && FirstFits(blocks, ring, start, s, q)
    ensures p == q && !NoneFits(blocks, ring, s)
  {
    hide Lap;
    var f, v: nat :| FitsAt(blocks, ring, start, s, f, v, p);
    var g, w: nat :| FitsAt(blocks, ring, start, s, g, w, q);
    assert f == g;
    LapElements(ring, f);
    assert p in ring;
  }

  lemma OnlyPlace(blocks: Blocks, ring: seq<nat>, bp: nat, i: nat, lo: nat, hi: nat)
    requires Ascending(ring, lo, hi) && bp in blocks && i < |ring| && GapAt(ring, bp, i)
    ensures InsertKeeps(blocks, ring, bp) <==> Harmless(blocks, ring, i, bp)
  {
    hide Ascending, GapAt, Harmless;
    forall j: nat | j < |ring| && GapAt(ring, bp, j) ensures j == i {
      OneGap(ring, bp, i, j, lo, hi);
    }
  }

  /** A block on top of the heap that joins nothing goes to the end of the list. */
  lemma FreedOnTop(blocks0: Blocks, ring0: seq<nat>, up: nat, q: nat, blocks: Blocks, ring: seq<nat>, lo: nat)
    requires Ascending(ring0, lo, up) && up in blocks0 && InsertKeeps(blocks0, ring0, up)
    requires IsFreed(blocks0, ring0, up, q, blocks, ring)
    ensures ring == ring0 + [up] && q == ring0[|ring0| - 1]
  {
    hide JoinsUpper, JoinsLower;
    var i: nat :| PlaceOf(ring0, up, q, i) && ring == FreedRing(blocks0, ring0, i, up);
    assert i == |ring0| - 1;
  }

  /** An exact block is taken off the end of the list. */
  lemma LastTaken(blocks0: Blocks, ring0: seq<nat>, p: nat, s: nat, q: nat, blocks: Blocks, ring: seq<nat>)
    requires p !in ring0 && SizeOf(blocks0, p) == s && ring0 != []
    requires IsTaken(blocks0, ring0 + [p], p, s, q, blocks, ring)
    ensures ring == ring0
  {
    var r := ring0 + [p];
    var k: nat :| k < |r| && r[k] == p && ring == TakenRing(blocks0, r, k, s);
    assert k == |ring0| && RemoveAt(r, k) == ring0;
  }

  lemma HarmlessIsNoLowerJoin(blocks: Blocks, ring: seq<nat>, i: nat, bp: nat)
    requires i < |ring| && bp in blocks
    ensures Harmless(blocks, ring, i, bp) ==> !JoinsLower(blocks, ring, i, bp)
  {
  }

  // ----- the class -----

  class Allocator {
    const base: nat
    const heap: nat
    const heapSize: nat
    var next: map<nat, nat>   // the link of every header written so far
    var size: map<nat, nat>   // the size field of every header written so far
    var freep: nat
    var nextIndex: nat
    var availMem: nat
    ghost var ring: seq<nat>  // the free list, in the order of its links
    ghost var blocks: Blocks  // free and live blocks

    /** The base header lies apart from the heap, below or above. */
    ghost predicate Geometry() {
      && base > NULL && heap > NULL && (base + HEADER < heap || heap + heapSize < base)
      && InMemory(base, heap, heap + heapSize) && base % 4 == heap % 4
    }

    /** The ghost blocks have the sizes that stand in their headers. */
    ghost predicate Sizes()
      reads this
    {
      forall a :: a in blocks ==> a in size && size[a] == blocks[a]
    }

    /** The ghost list is the one the headers link. */
    ghost predicate Links()
      reads this
    {
      Linked(next, ring, -1)
    }

    ghost predicate Headers()
      reads this
    {
      Sizes() && Links()
    }

    ghost predicate InOrder()
      reads this
    {
      WellFormed(blocks, ring, base, heap, nextIndex)
    }

    ghost predicate Sound()
      reads this
    {
      && Geometry() && heap <= nextIndex && nextIndex - heap + availMem == heapSize
      && InOrder() && Headers() && base in size && size[base] == 0 && freep in ring
    }

    ghost predicate Valid()
      reads this
    {
      if freep == NULL then
        Geometry() && ring == [base] && blocks == map[] && nextIndex == heap && availMem == heapSize
      else Sound()
    }

    /** The blocks handed out and not yet freed, with their payload sizes. */
    ghost function Live(): Blocks
      reads this
    {
      LiveOf(blocks, ring)
    }

    /** The static initial state. */
    constructor (base: nat, heap: nat, heapSize: nat)
      requires base > NULL && heap > NULL && (base + HEADER < heap || heap + heapSize < base)
      requires InMemory(base, heap, heap + heapSize) && base % 4 == heap % 4
      ensures Valid() && blocks == map[] && ring == [base] && nextIndex == heap && availMem == heapSize && freep == NULL
      ensures this.base == base && this.heap == heap && this.heapSize == heapSize
    {
      this.base, this.heap, this.heapSize := base, heap, heapSize;
      next, size, freep, nextIndex, availMem := map[], map[], NULL, heap, heapSize;
      ring, blocks := [base], map[];
    }

    /** Headers in use never overlap, and stand on words: links and sizes can be kept in two maps. */
    lemma HeadersApart(a: nat, b: nat)
      requires Sound() && (a in blocks || a == base) && (b in blocks || b == base) && a < b
      ensures a + HEADER <= b && a % 4 == b % 4 == heap % 4
    {
      hide Linked, Ascending, InWords;
      if a in blocks { InTiles(blocks, a, heap, nextIndex); }
      if b in blocks { InTiles(blocks, b, heap, nextIndex); }
      HeaderAligned(a);
      HeaderAligned(b);
    }

    lemma HeaderAligned(a: nat)
      requires Sound() && (a in blocks || a == base)
      ensures a % 4 == heap % 4
    {
      hide Linked, Ascending, InWords, Tiles;
      if a in blocks { BlockAligned(blocks, a, heap, nextIndex); }
    }

    /** A valid state is in order, and accounts for the whole heap. */
    lemma ValidInOrder()
      requires Valid()
      ensures InOrder() && ring != [] && ring[0] == base
      ensures heap <= nextIndex && nextIndex - heap + availMem == heapSize && heap + heapSize < UINT_MAX_PLUS_1
    {
    }

    // ----- tj_free -----

    /** The state between the two joins, for bp with its place behind ring[i]. */
    ghost predicate HalfFreed(bp: nat, i: nat)
      requires i < |ring| && bp in blocks
      reads this
    {
      var b := UpperJoined(blocks, ring, i, bp);
      && (forall a :: a in b ==> a in size && size[a] == b[a])
      && bp in b && ring[i] in size && size[ring[i]] == SizeOf(blocks, ring[i]) == SizeOf(b, ring[i])
      && Linked(next, UpperRing(blocks, ring, i, bp), PlaceIn(blocks, ring, i, bp) - 1)
    }

    /** Lines 58-65. */
    method JoinUpper(bp: nat, p: nat, ghost i: nat)
      requires Sound() && bp in blocks && bp !in ring && i < |ring| && ring[i] == p && GapAt(ring, bp, i)
      modifies this`next, this`size
      ensures HalfFreed(bp, i) && base in size && size[base] == 0
    {
      hide Tiles, Ascending, Linked, Distinct, UpperRing, PlaceIn, GapAt;
      NextOf(next, ring, i, -1);
      AscendingDistinct(ring, heap, nextIndex);
      UpperLinks(next, blocks, ring, i, bp);
      Neighbours(blocks, ring, i, bp, base, heap, nextIndex);
      var q := next[p];
      if Step(bp, size[bp]) == q {
        size := size[bp := size[bp] + size[q]];
        next := next[bp := next[q]];
      } else {
        next := next[bp := q];
      }
    }

    /** Lines 67-72. */
    method JoinLower(bp: nat, p: nat, ghost i: nat)
      requires i < |ring| && bp in blocks && bp !in ring && Distinct(ring) && ring[i] == p && HalfFreed(bp, i)
      modifies this`next, this`size, this`ring, this`blocks
      ensures Headers()
      ensures blocks == FreedBlocks(old(blocks), old(ring), i, bp) && ring == FreedRing(old(blocks), old(ring), i, bp)
      ensures old(JoinsLower(blocks, ring, i, bp)) || (p in next && next[p] == bp && size == old(size))
    {
      hide Linked, Distinct, UpperRing, PlaceIn, UpperJoined;
      ghost var r, k := UpperRing(blocks, ring, i, bp), PlaceIn(blocks, ring, i, bp);
      UpperRingDistinct(blocks, ring, i, bp);
      if Step(p, size[p]) == bp {
        NextOf(next, r, k, k - 1);
        RemoveLinks(next, r, k, k - 1);
        size := size[p := size[p] + size[bp]];
        next := next[p := next[bp]];
      } else {
        LinkLinks(next, r, k - 1);
        next := next[p := bp];
      }
      blocks, ring := FreedBlocks(blocks, ring, i, bp), FreedRing(blocks, ring, i, bp);
    }

    /** tj_free of bp fires no adjacency test, or only the one that changes nothing. */
    ghost predicate FreeKeeps(bp: nat)
      reads this
    {
      bp in blocks && InsertKeeps(blocks, ring, bp)
    }

    lemma ListInOrder()
      requires InOrder()
      ensures Ascending(ring, heap, nextIndex) && Distinct(ring) && ring != [] && ring[0] == base
    {
      hide Distinct, Tiles;
      AscendingDistinct(ring, heap, nextIndex);
    }

    /**
     The body of tj_free after its range check, for the header bp of a block that is not in the list.
     `kept` is not in the program: it records the two tests, for the scan of tj_malloc to stop on.
     */
    method Insert(bp: nat) returns (kept: bool)
      requires Sound() && bp in blocks && bp !in ring
      modifies this`next, this`size, this`ring, this`blocks, this`freep
      ensures Headers() && IsFreed(old(blocks), old(ring), bp, freep, blocks, ring)
      ensures InOrder() <==> old(FreeKeeps(bp))
      ensures old(FreeKeeps(bp)) ==> Sound() && blocks == old(blocks) && Live() == old(Live()) - {bp}
      ensures old(FreeKeeps(bp)) ==> freep in next && next[freep] == bp && bp in ring
      ensures freep in old(ring) && kept == old(FreeKeeps(bp))
    {
      hide WellFormed, Ascending, Linked, Distinct, LiveOf, GapAt, FreedRing, FreedBlocks, Harmless;
      hide InsertKeeps, IsFreed, UpperJoined, UpperRing;
      InUsedHeap(bp);
      ListInOrder();
      var p := FindPlace(next, freep, bp, ring, heap, nextIndex);
      ghost var i: nat :| PlaceOf(ring, bp, p, i);
      Placed(bp, i);
      HarmlessByTests(bp, i);
      kept := Step(p, size[p]) != bp && (Step(bp, size[bp]) != next[p] || next[p] == p);
      JoinUpper(bp, p, i);
      JoinLower(bp, p, i);
      freep := p;
    }

    /** What freeing bp at its place comes to. */
    lemma Placed(bp: nat, i: nat)
      requires Sound() && bp in blocks && bp !in ring && i < |ring| && GapAt(ring, bp, i)
      ensures var b, r := FreedBlocks(blocks, ring, i, bp), FreedRing(blocks, ring, i, bp);
        && IsFreed(blocks, ring, bp, ring[i], b, r)
        && (WellFormed(b, r, base, heap, nextIndex) <==> FreeKeeps(bp))
        && (FreeKeeps(bp) ==> b == blocks && LiveOf(b, r) == Live() - {bp} && ring[i] in r && bp in r)
      ensures FreeKeeps(bp) <==> Harmless(blocks, ring, i, bp)
      ensures FreeKeeps(bp) ==> !JoinsLower(blocks, ring, i, bp)
    {
      hide WellFormed, Linked, LiveOf, GapAt, FreedRing, FreedBlocks, Harmless;
      ListInOrder();
      FreeIff(blocks, ring, i, bp, base, heap, nextIndex);
      OnlyPlace(blocks, ring, bp, i, heap, nextIndex);
      InsertLive(blocks, ring, i, bp);
      HarmlessIsNoLowerJoin(blocks, ring, i, bp);
      ghost var r := InsertAfter(ring, i, bp);
      assert r[i] == ring[i] && r[i + 1] == bp;
    }

    /** The two tests, and the list of base alone, as the headers show them. */
    lemma HarmlessByTests(bp: nat, i: nat)
      requires Sound() && bp in blocks && bp !in ring && i < |ring| && GapAt(ring, bp, i)
      ensures ring[i] in next && ring[i] in size && bp in size
      ensures Harmless(blocks, ring, i, bp) <==>
        && Step(ring[i], size[ring[i]]) != bp
        && (Step(bp, size[bp]) != next[ring[i]] || next[ring[i]] == ring[i])
    {
      hide Tiles;
      Neighbours(blocks, ring, i, bp, base, heap, nextIndex);
      NextOf(next, ring, i, -1);
    }

    lemma InUsedHeap(bp: nat)
      requires Sound() && bp in blocks
      ensures heap <= bp < nextIndex
    {
      InTiles(blocks, bp, heap, nextIndex);
    }

    /** tj_free of a live block, or of an address outside the heap, which the program answers with exit(1). */
    method Free(mem: nat) returns (ok: bool)
      requires Valid()
      requires heap <= mem <= heap + heapSize ==> mem >= HEADER && mem - HEADER in Live()
      modifies this
      ensures ok <==> heap <= mem <= heap + heapSize
      ensures InOrder() <==> (ok ==> old(FreeKeeps(mem - HEADER)))
      ensures Valid() <==> InOrder()
      ensures ok && Valid() ==> blocks == old(blocks) && Live() == old(Live()) - {mem - HEADER}
      ensures ok && Valid() ==> freep in next && next[freep] == mem - HEADER
      ensures ok ==> Headers() && IsFreed(old(blocks), old(ring), mem - HEADER, freep, blocks, ring)
      ensures nextIndex == old(nextIndex) && availMem == old(availMem)
      ensures !ok ==>
        ring == old(ring) && blocks == old(blocks) && freep == old(freep) && next == old(next) && size == old(size)
    {
      hide WellFormed, Linked, FreedRing, FreedBlocks, Harmless;
      ValidInOrder();
      if mem < heap || mem > heap + heapSize {
        return false;
      }
      NotNull();
      var _ := Insert(mem - HEADER);
      return true;
    }

    /** No member of the list is NULL. */
    lemma NotNull()
      ensures freep != NULL && Sound() ==> NULL !in ring
    {
    }

    // ----- getmoremem -----

    /** The growth for s bytes puts its block on the list and nothing else. */
    ghost predicate GrowthKeeps(s: nat)
      reads this
    {
      InsertKeeps(blocks[nextIndex := s], ring, nextIndex)
    }

    lemma Grown(s: nat)
      requires Sound() && availMem >= s + HEADER && s > 0 && s % 4 == 0
      ensures nextIndex !in blocks && nextIndex !in ring && nextIndex != base
      ensures WellFormed(blocks[nextIndex := s], ring, base, heap, nextIndex + HEADER + s)
      ensures LiveOf(blocks[nextIndex := s], ring) == LiveOf(blocks, ring)[nextIndex := s]
      ensures nextIndex !in LiveOf(blocks, ring)
    {
      hide Tiles, InWords;
      TilesGrow(blocks, heap, nextIndex, s);
      WordsGrow(blocks, heap, nextIndex, s);
    }

    /** A new block of total bytes on top of the heap goes through tj_free. */
    method GetMoreMem(total: nat) returns (ok: bool, kept: bool)
      requires Sound() && total > HEADER && total % 4 == 0
      modifies this
      ensures ok <==> old(availMem) >= total
      ensures !ok ==> Sound() && unchanged(this)
      ensures ok ==> nextIndex == old(nextIndex) + total && availMem == old(availMem) - total
      ensures ok ==> Headers()
      ensures ok ==>
        IsFreed(old(blocks)[old(nextIndex) := total - HEADER], old(ring), old(nextIndex), freep, blocks, ring)
      ensures ok ==> (InOrder() <==> old(GrowthKeeps(total - HEADER))) && freep in old(ring)
      ensures ok ==> kept == old(GrowthKeeps(total - HEADER))
      ensures ok ==> old(nextIndex) !in old(Live()) && old(nextIndex) != base
      ensures ok && old(GrowthKeeps(total - HEADER)) ==>
        Sound() && Live() == old(Live()) && freep in next && next[freep] == old(nextIndex) && old(nextIndex) in ring
        && blocks == old(blocks)[old(nextIndex) := total - HEADER]
        && old(nextIndex) !in old(ring) && ring == old(ring) + [old(nextIndex)] && freep == old(ring)[|old(ring)| - 1]
    {
      hide Tiles, Ascending, Linked, LiveOf, FreedRing, FreedBlocks, Harmless, IsFreed;
      if availMem < total {
        return false, true;
      }
      var up := nextIndex;
      ghost var live := Live();
      Grown(total - HEADER);
      nextIndex := nextIndex + total;
      availMem := availMem - total;
      size := size[up := total - HEADER];
      blocks := blocks[up := total - HEADER];
      kept := Insert(up);
      assert live[up := total - HEADER] - {up} == live;
      if old(GrowthKeeps(total - HEADER)) {
        FreedOnTop(old(blocks)[up := total - HEADER], old(ring), up, freep, blocks, ring, heap);
      }
      ok := true;
    }

    // ----- tj_malloc -----

    /** Where the scan begins: base, while there is no list yet. */
    ghost function Start(): nat
      reads this
    {
      if freep == NULL then base else freep
    }

    ghost predicate FirstFit(s: nat, p: nat)
      reads this
    {
      FirstFits(blocks, ring, Start(), s, p)
    }

    ghost predicate NoFit(s: nat)
      reads this
    {
      NoneFits(blocks, ring, s)
    }

    /** p, reached from prevp, stands at position v of the lap, and nothing before it was big enough. */
    ghost predicate Scanning(s: nat, f: nat, v: nat, prevp: nat, p: nat)
      reads this
    {
      OnLap(ring, f, v, prevp, p) && ring[f] == Start() && SmallerBefore(blocks, ring, s, f, v)
    }

    lemma SizeField(p: nat)
      requires Sound() && p in ring
      ensures p in size && size[p] == SizeOf(blocks, p)
      ensures p == base <==> p !in blocks
    {
      hide Tiles, Linked;
      var k: nat :| k < |ring| && ring[k] == p;
      MemberOf(blocks, ring, k, base, heap, nextIndex);
    }

    /** What the scan needs to know about the place it has reached, and the step from there. */
    lemma AtScan(s: nat, f: nat, v: nat, prevp: nat, p: nat)
      requires Sound() && freep != NULL && Scanning(s, f, v, prevp, p)
      ensures p in ring && p in next && prevp in ring && prevp in next && next[prevp] == p
      ensures p in size && size[p] == SizeOf(blocks, p)
      ensures size[p] >= s ==> FirstFit(s, p)
      ensures size[p] < s && p != freep ==> Scanning(s, f, v + 1, p, next[p])
      ensures size[p] < s && p == freep ==> NoFit(s)
      ensures v < |ring|
    {
      hide Tiles, Linked, Ascending, Lap;
      AtLap(next, ring, f, v, prevp, p, heap, nextIndex);
      LapFollowsLinks(next, ring, f);
      SizeField(p);
      if size[p] >= s {
        assert FitsAt(blocks, ring, Start(), s, f, v, p);
      } else if p == freep {
        forall a | a in ring ensures SizeOf(blocks, a) < s {
          assert a in Lap(ring, f);
        }
      }
    }

    /** Cutting s bytes off p overwrites no link of the list, or only with the same value. */
    ghost predicate Spares(p: nat, s: nat)
      reads this
    {
      var w := SizeWord(TakenHeader(blocks, p, s));
      SizeOf(blocks, p) == s || w !in ring || (w in next && next[w] == s)
    }

    /** p is the first fit, and not exact. */
    ghost predicate CutsFirst(s: nat, p: nat)
      reads this
    {
      FirstFit(s, p) && SizeOf(blocks, p) != s
    }

    /** On a list of base alone nothing is cut. */
    lemma AloneNeverCuts(s: nat)
      requires ring == [base] && blocks == map[]
      ensures LinksSpared(s) && forall p :: !CutsFirst(s, p)
    {
    }

    ghost predicate LinksSpared(s: nat)
      reads this
    {
      forall p :: FirstFit(s, p) ==> Spares(p, s)
    }

    /** Lines 113-124, for the member p that the code finds big enough. */
    method Take(s: nat, p: nat, prevp: nat) returns (mem: nat)
      requires Sound() && p in ring && prevp in ring && prevp in next && next[prevp] == p && SizeOf(blocks, p) >= s
      modifies this`next, this`size, this`freep, this`ring, this`blocks
      ensures Sizes() && mem == Payload(TakenHeader(old(blocks), p, s)) && freep == prevp
      ensures Links() <==> old(Spares(p, s))
      ensures mem % 4 == heap % 4
      ensures old(SizeOf(blocks, p)) != s ==>
        next == Overwritten(old(next), SizeWord(TakenHeader(old(blocks), p, s)), s)
      ensures IsTaken(old(blocks), old(ring), p, s, freep, blocks, ring) && blocks == TakenBlocks(old(blocks), p, s)
      ensures InOrder() <==> old(Exact(blocks, ring, p, s))
      ensures old(Exact(blocks, ring, p, s)) ==> Sound()
      ensures old(Exact(blocks, ring, p, s)) && p != base ==> p !in old(Live()) && Live() == old(Live())[p := s]
      ensures old(Exact(blocks, ring, p, s)) && p == base ==> Live() == old(Live())
    {
      hide WellFormed, Linked, LiveOf, Before, After, RemoveAt, Overwritten, SizeWord, Step;
      OverwrittenLinks(next, ring, SizeWord(TakenHeader(blocks, p, s)), s);
      ghost var k := IndexOf(next, ring, prevp, p);
      MallocIff(blocks, ring, k, s, base, heap, nextIndex);
      MemberOf(blocks, ring, k, base, heap, nextIndex);
      SizeField(p);
      HeaderAligned(p);
      TakenAligned(blocks, p, s);
      ghost var blocks', ring' := TakenBlocks(blocks, p, s), TakenRing(blocks, ring, k, s);
      var header: nat := p;
      if size[p] == s {
        TakenLinks(prevp, p, k, s);
        next := next[prevp := next[p]];
      } else {
        size := size[p := (size[p] - (s + HEADER)) % UINT_MAX_PLUS_1];
        header := Step(p, size[p]);
        size := size[header := s];
        next := Overwritten(next, SizeWord(header), s);  // the same store, should that word be a link
      }
      freep := prevp;
      blocks, ring := blocks', ring';
      mem := Payload(header);
    }

    lemma TakenLinks(prevp: nat, p: nat, k: nat, s: nat)
      requires Sound() && k < |ring| && ring[k] == p && ring[Before(ring, k)] == prevp && SizeOf(blocks, p) == s
      ensures p in next && Linked(next[prevp := next[p]], TakenRing(blocks, ring, k, s), -1)
      ensures prevp in TakenRing(blocks, ring, k, s)
      ensures k > 0 ==> LiveOf(blocks, TakenRing(blocks, ring, k, s)) == LiveOf(blocks, ring)[p := s]
      ensures k > 0 ==> p !in LiveOf(blocks, ring)
    {
      hide Tiles, Ascending;
      AscendingDistinct(ring, heap, nextIndex);
      NextOf(next, ring, k, -1);
      MemberOf(blocks, ring, k, base, heap, nextIndex);
      if |ring| > 1 {
        RemoveLinks(next, ring, k, -1);
        assert RemoveAt(ring, k)[if k == 0 then |ring| - 2 else k - 1] == prevp;
        if k > 0 { RemoveLive(blocks, ring, k, heap, nextIndex); }
      }
    }

    /** Exactly when tj_malloc of s bytes, rounded, leaves the blocks and the list in order. */
    ghost predicate MallocKeeps(s: nat)
      reads this
    {
      && (forall p :: FirstFit(s, p) ==> Exact(blocks, ring, p, s))
      && (NoFit(s) && availMem >= s + HEADER ==> GrowthKeeps(s))
    }

    lemma ExactBlock(p: nat, s: nat)
      requires p in blocks && blocks[p] == s
      ensures Exact(blocks, ring, p, s) && TakenHeader(blocks, p, s) == p && TakenBlocks(blocks, p, s) == blocks
    {
    }

    /** What MallocKeeps comes to, with a first fit and without. */
    lemma KeepsByCases(s: nat)
      requires Ascending(ring, heap, nextIndex)
      ensures forall p :: FirstFit(s, p) ==> !NoFit(s) && (MallocKeeps(s) <==> Exact(blocks, ring, p, s))
      ensures forall p, q :: FirstFit(s, p) && FirstFit(s, q) ==> p == q
      ensures NoFit(s) ==> (MallocKeeps(s) <==> (availMem >= s + HEADER ==> GrowthKeeps(s)))
    {
      hide FirstFits, NoneFits, Exact, Distinct, Ascending;
      AscendingDistinct(ring, heap, nextIndex);
      forall p, q | FirstFit(s, p) && FirstFit(s, q) ensures p == q && !NoFit(s) {
        OneFirstFit(blocks, ring, Start(), s, p, q);
      }
    }

    /** The scan of tj_malloc, up to the growth that goes astray. */
    method Scan(s: nat) returns (r: Result)
      requires Sound() && freep != NULL && s % 4 == 0
      modifies this
      ensures Sound() <==> InOrder()
      ensures InOrder() <==> old(MallocKeeps(s))
      ensures old(NoFit(s)) || exists p :: old(FirstFit(s, p))
      ensures forall p :: old(FirstFit(s, p)) ==>
        r == Block(Payload(TakenHeader(old(blocks), p, s)))
        && IsTaken(old(blocks), old(ring), p, s, freep, blocks, ring)
      ensures forall p :: old(FirstFit(s, p) && Exact(blocks, ring, p, s)) ==>
        if p == base then Live() == old(Live()) else p !in old(Live()) && Live() == old(Live())[p := s]
      ensures r.Null? <==> old(NoFit(s)) && old(availMem) < s + HEADER
      ensures r.Null? ==> unchanged(this)
      ensures old(NoFit(s)) && !r.Null? ==>
        if old(GrowthKeeps(s)) then
          r == Block(Payload(old(nextIndex))) && blocks == old(blocks)[old(nextIndex) := s]
          && ring == old(ring) && freep == ring[|ring| - 1]
          && old(nextIndex) !in old(Live()) && Live() == old(Live())[old(nextIndex) := s]
        else r.Astray? && IsFreed(old(blocks)[old(nextIndex) := s], old(ring), old(nextIndex), freep, blocks, ring)
      ensures nextIndex == old(nextIndex) + if old(NoFit(s)) && !r.Null? then s + HEADER else 0
      ensures Sizes() && (Links() <==> old(LinksSpared(s))) && freep != NULL && freep in old(ring)
      ensures r.Block? ==> r.mem % 4 == heap % 4
      ensures forall p :: old(CutsFirst(s, p)) ==>
        next == Overwritten(old(next), SizeWord(TakenHeader(old(blocks), p, s)), s)
    {
      hide Tiles, Ascending, Linked, LiveOf, Lap, OnLap, Exact, GrowthKeeps, MallocKeeps, NoneFits, FirstFits;
      hide IsTaken, IsFreed, Distinct;
      KeepsByCases(s);
      NotNull();
      var prevp: nat := freep;
      ghost var f := StartLap(next, ring, freep);
      ghost var v, grown := 0, false;
      var p: nat := next[prevp];
      while true
        invariant Sound() && freep != NULL
        invariant prevp in ring && prevp in old(ring) && prevp in next && next[prevp] == p
        invariant !grown ==> unchanged(this) && Scanning(s, f, v, prevp, p)
        invariant grown ==> old(NoFit(s)) && old(availMem) >= s + HEADER && old(GrowthKeeps(s)) && old(MallocKeeps(s))
        invariant grown ==> p == old(nextIndex) && p in ring && p !in old(Live()) && p != base && Live() == old(Live())
        invariant grown ==> blocks == old(blocks)[p := s] && nextIndex == old(nextIndex) + s + HEADER
        invariant grown ==> p !in old(ring) && ring == old(ring) + [p] && prevp == old(ring)[|old(ring)| - 1]
        decreases !grown, |ring| - v
      {
        if grown { SizeField(p); ExactBlock(p, s); } else { AtScan(s, f, v, prevp, p); }
        if size[p] >= s {
          NotNull();
          ghost var blocks1 := blocks;
          var mem := Take(s, p, prevp);
          if grown { LastTaken(blocks1, old(ring), p, s, prevp, blocks, ring); }
          return Block(mem);
        }
        if p == freep {
          var ok, kept := GetMoreMem(s + HEADER);
          if !ok {
            return Null;
          }
          if !kept {
            return Astray;
          }
          grown, v := true, 0;
          p := freep;
        } else {
          v := v + 1;
        }
        prevp := p;
        p := next[p];
      }
    }

    /** tj_malloc. A request of 0 bytes takes base, or cuts the first block it meets. */
    method Malloc(request: nat) returns (r: Result)
      requires Valid()
      modifies this
      ensures InOrder() <==> request > heapSize || old(MallocKeeps(Round4(request)))
      ensures Valid() <==> InOrder()
      ensures r.Null? <==>
        request > heapSize || (old(NoFit(Round4(request))) && old(availMem) < Round4(request) + HEADER)
      ensures r.Null? ==> blocks == old(blocks) && ring == old(ring) && nextIndex == old(nextIndex)
      ensures r.Null? ==> freep == if request > heapSize then old(freep) else old(Start())
      ensures r.Block? ==> r.mem % 4 == heap % 4 && freep in old(ring)
      ensures request <= heapSize ==> Sizes() && (Links() <==> old(LinksSpared(Round4(request))))
      ensures forall p :: request <= heapSize && old(CutsFirst(Round4(request), p)) ==>
        next == Overwritten(old(next), SizeWord(TakenHeader(old(blocks), p, Round4(request))), Round4(request))
      ensures forall p :: request <= heapSize && old(FirstFit(Round4(request), p)) ==>
        r == Block(Payload(TakenHeader(old(blocks), p, Round4(request))))
        && IsTaken(old(blocks), old(ring), p, Round4(request), freep, blocks, ring) && nextIndex == old(nextIndex)
      ensures forall p :: !r.Null? && old(FirstFit(Round4(request), p)) && Valid() ==>
        if p == base then Live() == old(Live()) else p !in old(Live()) && Live() == old(Live())[p := Round4(request)]
      ensures !r.Null? && old(NoFit(Round4(request))) ==>
        var up := old(nextIndex);
        && nextIndex == up + Round4(request) + HEADER
        && if Valid() then
             r == Block(Payload(up)) && blocks == old(blocks)[up := Round4(request)]
             && ring == old(ring) && freep == ring[|ring| - 1]
             && up !in old(Live()) && Live() == old(Live())[up := Round4(request)]
           else r.Astray? && IsFreed(old(blocks)[up := Round4(request)], old(ring), up, freep, blocks, ring)
    {
      hide Tiles, Ascending, Linked, LiveOf, Exact, NoneFits, FirstFits, InsertKeeps, IsTaken, IsFreed;
      ValidInOrder();
      if request > heapSize {
        return Null;
      }
      var s := request;
      if s % 4 != 0 {
        s := s + 4 - s % 4;
      }
      assert s == Round4(request);
      hide Round4, LinksSpared, CutsFirst, Overwritten, SizeWord;
      if freep == NULL {
        AloneNeverCuts(s);
        InitList();
        AloneNeverCuts(s);
      }
      KeepsByCases(s);
      r := Scan(s);
    }

    /** The first lines of tj_malloc: a list that holds only base. */
    method InitList()
      requires Valid() && freep == NULL
      modifies this`freep, this`next, this`size
      ensures Sound() && freep == base
    {
      freep := base;
      next := next[base := freep];
      size := size[base := 0];
    }

    // ----- lists of one or two members -----

    /** With all blocks live, only base is on the list. */
    lemma AloneIff()
      requires Valid()
      ensures blocks == Live() <==> ring == [base]
    {
      hide Tiles;
      assert |ring| > 1 ==> ring[1] in ring;
      if ring == [base] && freep != NULL {
        MemberOf(blocks, ring, 0, base, heap, nextIndex);
      }
    }

    /** On that list nothing fits, and a block inserted there joins nothing. */
    lemma AloneKeeps(s: nat)
      requires Valid() && ring == [base] && s > 0 && availMem >= s + HEADER
      ensures NoFit(s) && MallocKeeps(s)
    {
      hide Tiles;
      if freep != NULL { MemberOf(blocks, ring, 0, base, heap, nextIndex); }
      assert forall p :: !FirstFit(s, p);
    }

    lemma AloneFrees(bp: nat)
      requires Valid() && ring == [base] && bp in blocks
      ensures FreeKeeps(bp) && InsertKeeps(blocks, [base], bp)
    {
      hide Tiles;
      MemberOf(blocks, ring, 0, base, heap, nextIndex);
    }

    /** A first fit that is not exact is cut, and its store decides about the links. */
    lemma Cuts(p: nat, s: nat)
      requires Valid() && FirstFit(s, p) && SizeOf(blocks, p) != s
      ensures CutsFirst(s, p) && !MallocKeeps(s) && (LinksSpared(s) <==> Spares(p, s))
    {
      hide Tiles, FirstFits, NoneFits, Spares;
      ValidInOrder();
      KeepsByCases(s);
      forall q | FirstFit(s, q) ensures q == p {
      }
    }

    /** On a list of base and one block the block is the first fit, wherever the scan begins. */
    lemma PairFits(bp: nat, s: nat)
      requires ring == [base, bp] && Start() in ring && base !in blocks && bp in blocks && 0 < s <= blocks[bp]
      ensures FirstFit(s, bp)
    {
      if Start() == base {
        assert Lap(ring, 0) == [bp, base] && FitsAt(blocks, ring, base, s, 0, 0, bp);
      } else {
        assert Lap(ring, 1) == [base, bp] && FitsAt(blocks, ring, bp, s, 1, 1, bp);
      }
    }

    /** The only free block, bigger than the request, is cut; the store may hit the link of base. */
    lemma PairCuts(bp: nat, s: nat)
      requires Valid() && ring == [base, bp] && bp in blocks && 0 < s < blocks[bp]
      ensures FirstFit(s, bp) && CutsFirst(s, bp) && !MallocKeeps(s) && base !in blocks && bp < UINT_MAX_PLUS_1
      ensures TakenHeader(blocks, bp, s) == Step(bp, Remainder(blocks[bp], s))
      ensures LinksSpared(s) <==> (SizeWord(Step(bp, Remainder(blocks[bp], s))) == base ==> bp == s)
    {
      hide Tiles, Step, Remainder, SizeWord, FirstFits;
      MemberOf(blocks, ring, 0, base, heap, nextIndex);
      InTiles(blocks, bp, heap, nextIndex);
      ValidInOrder();
      NextOf(next, ring, 0, -1);
      PairFits(bp, s);
      Cuts(bp, s);
      NotItself(bp, Remainder(blocks[bp], s));
    }

    /** After a cut with just a header to spare, the same block is the first fit again. */
    lemma SameAgain(blocks0: Blocks, bp: nat, s: nat)
      requires ring == [base, bp] && freep in ring && s > 0 && bp < UINT_MAX_PLUS_1
      requires bp in blocks0 && base !in blocks0 && blocks0[bp] == s + HEADER && blocks == TakenBlocks(blocks0, bp, s)
      ensures TakenHeader(blocks0, bp, s) == bp && FirstFit(s, bp) && TakenHeader(blocks, bp, s) == bp
    {
      OneHeaderToSpare(blocks0, ring, 1, s);
      PairFits(bp, s);
    }

    /** On a list of base and two blocks, entered at base, the first block is the first fit. */
    lemma TripleCuts(bp: nat, q: nat, s: nat)
      requires Valid() && ring == [base, bp, q] && freep == base && bp in blocks && 0 < s < blocks[bp]
      requires SizeWord(TakenHeader(blocks, bp, s)) == q
      ensures FirstFit(s, bp) && CutsFirst(s, bp) && !MallocKeeps(s) && q in next && (LinksSpared(s) <==> base == s)
    {
      hide Tiles, TakenHeader, SizeWord;
      MemberOf(blocks, ring, 0, base, heap, nextIndex);
      NextOf(next, ring, 2, -1);
      assert Lap(ring, 0) == [bp, q, base] && FitsAt(blocks, ring, base, s, 0, 0, bp);
      Cuts(bp, s);
    }

    /** A block freed below the only free block, but not that many headers away, is put in front of it. */
    lemma PairInserts(bp: nat, q: nat)
      requires Valid() && ring == [base, q] && bp in blocks && bp < q && Step(bp, blocks[bp]) != q
      ensures FreeKeeps(bp) && InsertKeeps(blocks, [base, q], bp) && bp != base
    {
      hide Tiles;
      ValidInOrder();
      MemberOf(blocks, ring, 0, base, heap, nextIndex);
      Neighbours(blocks, ring, 0, bp, base, heap, nextIndex);
    }

    /** A block freed below the only free block, that many headers away, swallows it, and so reaches into another. */
    lemma PairJoins(bp: nat, q: nat)
      requires Valid() && ring == [base, q] && bp in blocks && bp < q && Step(bp, blocks[bp]) == q
      ensures !FreeKeeps(bp)
      ensures forall p, blocks', ring' :: IsFreed(blocks, ring, bp, p, blocks', ring') ==> !Disjoint(blocks')
    {
      hide Disjoint, InWords;
      MemberOf(blocks, ring, 0, base, heap, nextIndex);
      assert GapAt(ring, bp, 0) && JoinsUpper(blocks, ring, 0, bp);
      DisjointIff(blocks, ring, 0, bp, base, heap, nextIndex);
      forall p, blocks', ring' | IsFreed(blocks, ring, bp, p, blocks', ring') ensures !Disjoint(blocks') {
        var i: nat :| PlaceOf(ring, bp, p, i) && blocks' == FreedBlocks(blocks, ring, i, bp);
        assert i == 0;
      }
    }
  }

  // ----- how soon a run leaves order -----

  /** While everything is live, tj_malloc hands out the next bytes of the heap. */
  method Extend(a: Allocator, request: nat) returns (mem: nat)
    requires a.Valid() && a.ring == [a.base] && request > 0
    requires request <= a.heapSize && a.availMem >= Round4(request) + HEADER
    modifies a
    ensures a.Valid() && a.ring == [a.base] && mem == old(a.nextIndex) + HEADER
    ensures a.blocks == old(a.blocks)[old(a.nextIndex) := Round4(request)]
    ensures a.nextIndex == mem + Round4(request) && a.availMem == old(a.availMem) - Round4(request) - HEADER
  {
    hide *;
    a.ValidInOrder();
    a.AloneIff();
    a.AloneKeeps(Round4(request));
    PayloadFits(a.nextIndex);
    var r := a.Malloc(request);
    a.ValidInOrder();
    a.AloneIff();
    mem := r.mem;
  }

  lemma PayloadFits(header: nat)
    ensures header + HEADER < UINT_MAX_PLUS_1 ==> Payload(header) == header + HEADER
  {
  }

  lemma FreedAlone(blocks0: Blocks, base: nat, bp: nat, p: nat, blocks: Blocks, ring: seq<nat>)
    requires bp in blocks0 && InsertKeeps(blocks0, [base], bp) && IsFreed(blocks0, [base], bp, p, blocks, ring)
    ensures ring == [base, bp] && p == base
  {
    hide JoinsLower, JoinsUpper;
    var i: nat :| PlaceOf([base], bp, p, i) && ring == FreedRing(blocks0, [base], i, bp);
    assert i == 0 && Harmless(blocks0, [base], i, bp);
  }

  lemma FreedBefore(blocks0: Blocks, base: nat, bp: nat, q: nat, p: nat, blocks: Blocks, ring: seq<nat>)
    requires bp in blocks0 && bp < q && bp != base
    requires InsertKeeps(blocks0, [base, q], bp) && IsFreed(blocks0, [base, q], bp, p, blocks, ring)
    ensures ring == [base, bp, q] && p == base
  {
    hide JoinsLower, JoinsUpper;
    var i: nat :| PlaceOf([base, q], bp, p, i) && ring == FreedRing(blocks0, [base, q], i, bp);
    assert i == 0 && Harmless(blocks0, [base, q], i, bp);
  }

  /** A cut leaves the list as it was, and gives the block its remainder. */
  lemma CutRing(blocks0: Blocks, ring0: seq<nat>, p: nat, s: nat, q: nat, blocks: Blocks, ring: seq<nat>)
    requires IsTaken(blocks0, ring0, p, s, q, blocks, ring) && SizeOf(blocks0, p) != s
    ensures ring == ring0 && blocks == TakenBlocks(blocks0, p, s)
  {
  }

  lemma OverwrittenAt(next: map<nat, nat>, w: nat, value: nat)
    requires w in next
    ensures w in Overwritten(next, w, value) && Overwritten(next, w, value)[w] == value
  {
  }

  lemma NotExact(blocks: Blocks, p: nat, s: nat)
    requires p in blocks && blocks[p] != s
    ensures SizeOf(blocks, p) == blocks[p] && TakenHeader(blocks, p, s) == Step(p, Remainder(blocks[p], s))
  {
  }

  /** The word four bytes behind the new header of a cut, which the block itself never reaches in headers. */
  lemma CutLandsOn(a: nat, size: nat, s: nat, q: nat)
    requires s + HEADER <= size <= MAX_HEAP && q == a + HEADER * (size - s - HEADER) + 4 && q < UINT_MAX_PLUS_1
    ensures SizeWord(Step(a, Remainder(size, s))) == q && Step(a, size) != q
  {
    assert Remainder(size, s) == size - s - HEADER;
    hide Step, Remainder;
    StepInside(a, size - s - HEADER);
    StepModEight(a, size);
  }

  lemma StepModEight(a: nat, size: nat)
    ensures Step(a, size) % 8 == a % 8
  {
    var x := a + HEADER * size;
    var laps := x / UINT_MAX_PLUS_1;
    assert Step(a, size) + 8 * (0x2000_0000 * laps) == a + 8 * size;
    hide Step;
    EightsDropOut(Step(a, size), 0x2000_0000 * laps);
    EightsDropOut(a, size);
  }

  lemma EightsDropOut(x: int, k: int)
    ensures (x + 8 * k) % 8 == x % 8
  {
  }

  /** The word of a new header's size field is never the link of the block that was cut. */
  lemma NotItself(a: nat, size: nat)
    ensures SizeWord(Step(a, size)) != a
  {
    StepModEight(a, size);
    var x := Step(a, size) + 4;
    assert x == UINT_MAX_PLUS_1 * (x / UINT_MAX_PLUS_1) + SizeWord(Step(a, size));
  }

  /** The block of Extend, given back, is the only one on the list. */
  method GiveBack(a: Allocator, bp: nat)
    requires a.Valid() && a.ring == [a.base] && bp in a.blocks && a.heap <= bp && bp + HEADER <= a.heap + a.heapSize
    modifies a
    ensures a.Valid() && a.ring == [a.base, bp] && a.blocks == old(a.blocks) && a.Live() == a.blocks - {bp}
    ensures a.nextIndex == old(a.nextIndex)
  {
    hide *;
    a.AloneIff();
    a.AloneFrees(bp);
    ghost var blocks := a.blocks;
    var ok := a.Free(bp + HEADER);
    FreedAlone(blocks, a.base, bp, a.freep, a.blocks, a.ring);
  }

  /**
   A block given back and a smaller one asked for: that request always cuts the block. With just a
   header to spare, the same block is on the list still, and is what the next such request gets.
   */
  method ThreeCalls(base: nat, heap: nat, heapSize: nat, n: nat, m: nat) returns (a: Allocator, r: Result)
    requires base > NULL && heap > NULL && (base + HEADER < heap || heap + heapSize < base)
    requires InMemory(base, heap, heap + heapSize) && base % 4 == heap % 4
    requires 0 < m && Round4(m) < Round4(n) && Round4(n) + HEADER <= heapSize
    ensures fresh(a) && a.Sizes() && !a.InOrder()
    ensures r == Block(Payload(Step(heap, Remainder(Round4(n), Round4(m)))))
    ensures a.Links() <==> (SizeWord(Step(heap, Remainder(Round4(n), Round4(m)))) == base ==> heap == Round4(m))
    ensures Round4(n) == Round4(m) + HEADER ==>
      && r == Block(Payload(heap)) && heap in a.ring
      && a.FirstFit(Round4(m), heap) && TakenHeader(a.blocks, heap, Round4(m)) == heap
  {
    hide *;
    a := new Allocator(base, heap, heapSize);
    var mem := Extend(a, n);
    GiveBack(a, heap);
    a.PairCuts(heap, Round4(m));
    ghost var blocks, ring := a.blocks, a.ring;
    NotExact(blocks, heap, Round4(m));
    r := a.Malloc(m);
    CutRing(blocks, ring, heap, Round4(m), a.freep, a.blocks, a.ring);
    if Round4(n) == Round4(m) + HEADER {
      a.SameAgain(blocks, heap, Round4(m));
    }
  }

  /** Three blocks, of which the last has been given back. */
  method ThreeBlocks(base: nat, heap: nat, heapSize: nat, n: nat, g: nat, m: nat) returns (a: Allocator, q: nat)
    requires base > NULL && heap > NULL && (base + HEADER < heap || heap + heapSize < base)
    requires InMemory(base, heap, heap + heapSize) && base % 4 == heap % 4
    requires n > 0 && g > 0 && m > 0 && Round4(n) + Round4(g) + Round4(m) + 3 * HEADER <= heapSize
    ensures fresh(a) && a.Valid() && a.base == base && a.heap == heap && a.heapSize == heapSize
    ensures a.ring == [base, q] && q == heap + 2 * HEADER + Round4(n) + Round4(g)
    ensures heap in a.blocks && a.blocks[heap] == Round4(n) && heap in a.Live()
    ensures q + HEADER <= heap + heapSize < UINT_MAX_PLUS_1
  {
    hide *;
    a := new Allocator(base, heap, heapSize);
    var first := Extend(a, n);
    var second := Extend(a, g);
    var third := Extend(a, m);
    q := third - HEADER;
    GiveBack(a, q);
    a.ValidInOrder();
  }

  /**
   When the last begins where the first, read in headers, ends, freeing the first merges the two
   across the live block between them.
   */
  method FiveCalls(base: nat, heap: nat, heapSize: nat, n: nat, g: nat, m: nat) returns (a: Allocator)
    requires base > NULL && heap > NULL && (base + HEADER < heap || heap + heapSize < base)
    requires InMemory(base, heap, heap + heapSize) && base % 4 == heap % 4
    requires n > 0 && g > 0 && m > 0 && 2 * HEADER + Round4(n) + Round4(g) == HEADER * Round4(n)
    requires Round4(n) + Round4(g) + Round4(m) + 3 * HEADER <= heapSize
    ensures fresh(a) && a.Headers() && !a.InOrder() && !Disjoint(a.blocks)
  {
    hide *;
    var q;
    a, q := ThreeBlocks(base, heap, heapSize, n, g, m);
    StepInside(heap, Round4(n));
    a.PairJoins(heap, q);
    var ok := a.Free(heap + HEADER);
  }

  /** A block freed in front of the only free block, without joining it. */
  method FreeBefore(a: Allocator, bp: nat, ghost q: nat)
    requires a.Valid() && a.ring == [a.base, q] && bp in a.Live() && bp in a.blocks && bp < q
    requires Step(bp, a.blocks[bp]) != q && a.heap <= bp && bp + HEADER <= a.heap + a.heapSize
    modifies a
    ensures a.Valid() && a.ring == [a.base, bp, q] && a.freep == a.base && a.blocks == old(a.blocks)
  {
    hide *;
    a.PairInserts(bp, q);
    ghost var blocks := a.blocks;
    var ok := a.Free(bp + HEADER);
    FreedBefore(blocks, a.base, bp, q, a.freep, a.blocks, a.ring);
  }

  /**
   The first freed as well and then cut: when the size field of the new header lies on the link of
   the last, the size becomes that link.
   */
  method SixCalls(base: nat, heap: nat, heapSize: nat, n: nat, g: nat, m: nat, s: nat) returns (a: Allocator, q: nat)
    requires base > NULL && heap > NULL && (base + HEADER < heap || heap + heapSize < base)
    requires InMemory(base, heap, heap + heapSize) && base % 4 == heap % 4
    requires n > 0 && g > 0 && m > 0 && s > 0 && Round4(s) + HEADER <= Round4(n)
    requires Round4(n) + Round4(g) + Round4(m) + 3 * HEADER <= heapSize
    requires 2 * HEADER + Round4(n) + Round4(g) == HEADER * (Round4(n) - Round4(s) - HEADER) + 4
    ensures fresh(a) && a.Sizes() && !a.InOrder()
    ensures q == heap + 2 * HEADER + Round4(n) + Round4(g) && a.ring == [base, heap, q]
    ensures q in a.next && a.next[q] == Round4(s)
    ensures a.Links() <==> base == Round4(s)
  {
    hide *;
    a, q := ThreeBlocks(base, heap, heapSize, n, g, m);
    InHeap(base, heap, heapSize);
    CutLandsOn(heap, Round4(n), Round4(s), q);
    FreeBefore(a, heap, q);
    NotExact(a.blocks, heap, Round4(s));
    a.TripleCuts(heap, q, Round4(s));
    ghost var next, ring, blocks := a.next, a.ring, a.blocks;
    var r := a.Malloc(s);
    CutRing(blocks, ring, heap, Round4(s), a.freep, a.blocks, a.ring);
    OverwrittenAt(next, q, Round4(s));
  }

  lemma InHeap(base: nat, heap: nat, heapSize: nat)
    requires InMemory(base, heap, heap + heapSize)
    ensures heapSize <= MAX_HEAP
  {
  }

  lemma StepInside(a: nat, size: nat)
    requires a + HEADER * size < UINT_MAX_PLUS_1
    ensures Step(a, size) == a + HEADER * size
  {
  }
}
