/**
 test_progs/tj_malloc.h with the code's own arithmetic, in 32 bits: `p + p->size` on a Header* moves
 8 bytes for every byte of payload, a merge does not count the swallowed header, and the split
 subtracts without asking for room. What each operation does to the blocks and to the list, and
 exactly when they stay in order.
 */
module TjMallocAsWritten {
  import opened HeapBlocks

  const UINT_MAX_PLUS_1: nat := 0x1_0000_0000

  /** Bounds every heap of this module; the program's has 16 KiB. */
  const MAX_HEAP: nat := 0x1000_0000

  /** The code's reading of "the address size units behind the header a". */
  function Step(a: nat, size: nat): nat { (a + HEADER * size) % UINT_MAX_PLUS_1 }

  /** 32-bit addresses, and a heap of bounded size. */
  predicate InMemory(base: nat, lo: nat, hi: nat) {
    base < UINT_MAX_PLUS_1 && lo <= hi < UINT_MAX_PLUS_1 && hi - lo <= MAX_HEAP
  }

  ghost predicate Positive(blocks: Blocks) {
    forall a :: a in blocks ==> blocks[a] > 0
  }

  /**
   The blocks tile the heap in whole words, none of them empty, and the list ascends from base
   through blocks; the other blocks are live.
   */
  ghost predicate WellFormed(blocks: Blocks, ring: seq<nat>, base: nat, lo: nat, hi: nat) {
    && Tiles(blocks, lo, hi) && InWords(blocks, lo, hi) && Positive(blocks)
    && Ascending(ring, lo, hi) && ring[0] == base
    && (forall i :: 1 <= i < |ring| ==> ring[i] in blocks)
  }

  /** The size in a header of the list; base has size 0. */
  ghost function SizeOf(blocks: Blocks, a: nat): nat { if a in blocks then blocks[a] else 0 }

  // ----- tj_free -----

  ghost predicate JoinsUpper(blocks: Blocks, ring: seq<nat>, i: nat, bp: nat)
    requires i < |ring| && bp in blocks
  {
    Step(bp, blocks[bp]) == After(ring, i)
  }

  ghost predicate JoinsLower(blocks: Blocks, ring: seq<nat>, i: nat, bp: nat)
    requires i < |ring|
  {
    Step(ring[i], SizeOf(blocks, ring[i])) == bp
  }

  /** Lines 58-65: all blocks after the upper join; base, as upper neighbour, adds nothing. */
  ghost function UpperJoined(blocks: Blocks, ring: seq<nat>, i: nat, bp: nat): Blocks
    requires i < |ring| && bp in blocks
  {
    var q := After(ring, i);
    if JoinsUpper(blocks, ring, i, bp) then (blocks - {q})[bp := blocks[bp] + SizeOf(blocks, q)] else blocks
  }

  /** Lines 67-72: all blocks after tj_free of bp, whose place is behind ring[i]. */
  ghost function FreedBlocks(blocks: Blocks, ring: seq<nat>, i: nat, bp: nat): Blocks
    requires i < |ring| && bp in blocks
  {
    var b := UpperJoined(blocks, ring, i, bp);
    var p := ring[i];
    if JoinsLower(blocks, ring, i, bp) then (b - {bp})[p := SizeOf(b, p) + SizeOf(b, bp)] else b
  }

  /** The list with bp in front of what followed ring[i], before ring[i] is linked. */
  ghost function UpperRing(blocks: Blocks, ring: seq<nat>, i: nat, bp: nat): seq<nat>
    requires i < |ring| && bp in blocks
  {
    if !JoinsUpper(blocks, ring, i, bp) || |ring| == 1 then InsertAfter(ring, i, bp)
    else if i + 1 < |ring| then ring[i + 1 := bp]
    else ring[1..] + [bp]
  }

  /** Swallowed by its successor base, bp drops base from the list; swallowed by ring[i], bp itself stays out. */
  ghost function FreedRing(blocks: Blocks, ring: seq<nat>, i: nat, bp: nat): seq<nat>
    requires i < |ring| && bp in blocks
  {
    var r := UpperRing(blocks, ring, i, bp);
    if JoinsLower(blocks, ring, i, bp) then RemoveAt(r, PlaceIn(blocks, ring, i, bp)) else r
  }

  /** Where bp stands in UpperRing. */
  ghost function PlaceIn(blocks: Blocks, ring: seq<nat>, i: nat, bp: nat): (k: nat)
    requires i < |ring| && bp in blocks
    ensures k < |UpperRing(blocks, ring, i, bp)| && UpperRing(blocks, ring, i, bp)[k] == bp
  {
    if JoinsUpper(blocks, ring, i, bp) && i + 1 == |ring| && |ring| > 1 then i else i + 1
  }

  /** Neither test fires, or only the upper one on a list of base alone, where it changes nothing. */
  ghost predicate Harmless(blocks: Blocks, ring: seq<nat>, i: nat, bp: nat)
    requires i < |ring| && bp in blocks
  {
    !JoinsLower(blocks, ring, i, bp) && (JoinsUpper(blocks, ring, i, bp) ==> |ring| == 1)
  }

  /** Blocks that really are neighbours are never recognised as such. */
  lemma NeighboursNeverJoin(a: nat, size: nat)
    requires size <= MAX_HEAP && a + HEADER + size < UINT_MAX_PLUS_1
    ensures Step(a, size) != a + HEADER + size
  {
  }

  /**
   a, read in headers, ends at b, and grows without counting a header: it then overlaps the block
   right behind it, which is not b.
   */
  lemma GrownOverlaps(blocks: Blocks, a: nat, b: nat, after: Blocks, lo: nat, hi: nat)
    requires Tiles(blocks, lo, hi) && InMemory(0, lo, hi)
    requires a in blocks && b in blocks && a < b && Step(a, blocks[a]) == b
    requires a in after && after[a] > blocks[a] && forall c :: c in blocks && a < c < b ==> c in after
    ensures !Disjoint(after)
  {
    InTiles(blocks, a, lo, hi);
    InTiles(blocks, b, lo, hi);
    StepUp(a, blocks[a], b);
    NextBlock(blocks, a, lo, hi);
    NeighboursNeverJoin(a, blocks[a]);
  }

  lemma StepUp(a: nat, size: nat, b: nat)
    requires a < b && size <= MAX_HEAP && Step(a, size) == b && a < UINT_MAX_PLUS_1
    ensures b == a + HEADER * size
  {
  }

  /** The neighbours of bp in the list: a block below it, or base; a block above it, or base. */
  lemma Neighbours(blocks: Blocks, ring: seq<nat>, i: nat, bp: nat, base: nat, lo: nat, hi: nat)
    requires WellFormed(blocks, ring, base, lo, hi) && InMemory(base, lo, hi)
    requires bp in blocks && bp !in ring && i < |ring| && GapAt(ring, bp, i)
    ensures lo <= bp < hi && base !in blocks && bp != base
    ensures if i + 1 < |ring| then After(ring, i) in blocks && bp < After(ring, i) else After(ring, i) == base
    ensures if i > 0 then ring[i] in blocks && ring[i] < bp else ring[i] == base && !JoinsLower(blocks, ring, i, bp)
  {
    InTiles(blocks, bp, lo, hi);
    if base in blocks { InTiles(blocks, base, lo, hi); }
  }

  /** The blocks stay pairwise disjoint exactly when none of them is joined: a join always makes an overlap. */
  lemma DisjointIff(blocks: Blocks, ring: seq<nat>, i: nat, bp: nat, base: nat, lo: nat, hi: nat)
    requires WellFormed(blocks, ring, base, lo, hi) && InMemory(base, lo, hi)
    requires bp in blocks && bp !in ring && i < |ring| && GapAt(ring, bp, i)
    ensures Disjoint(FreedBlocks(blocks, ring, i, bp)) <==>
      !JoinsLower(blocks, ring, i, bp) && (JoinsUpper(blocks, ring, i, bp) ==> i + 1 == |ring|)
  {
    hide InWords, Step, Ascending;
    Neighbours(blocks, ring, i, bp, base, lo, hi);
    var after := FreedBlocks(blocks, ring, i, bp);
    if JoinsLower(blocks, ring, i, bp) {
      GrownOverlaps(blocks, ring[i], bp, after, lo, hi);
    } else if JoinsUpper(blocks, ring, i, bp) && i + 1 < |ring| {
      GrownOverlaps(blocks, bp, After(ring, i), after, lo, hi);
    } else {
      assert after == blocks;
    }
  }

  /** tj_free keeps the heap well-formed exactly when it is harmless: then it inserts bp and changes no size. */
  lemma FreeIff(blocks: Blocks, ring: seq<nat>, i: nat, bp: nat, base: nat, lo: nat, hi: nat)
    requires WellFormed(blocks, ring, base, lo, hi) && InMemory(base, lo, hi)
    requires bp in blocks && bp !in ring && i < |ring| && GapAt(ring, bp, i)
    ensures WellFormed(FreedBlocks(blocks, ring, i, bp), FreedRing(blocks, ring, i, bp), base, lo, hi)
      <==> Harmless(blocks, ring, i, bp)
    ensures Harmless(blocks, ring, i, bp) ==>
      FreedBlocks(blocks, ring, i, bp) == blocks && FreedRing(blocks, ring, i, bp) == InsertAfter(ring, i, bp)
  {
    hide Disjoint, InWords, JoinsUpper, JoinsLower;
    Neighbours(blocks, ring, i, bp, base, lo, hi);
    DisjointIff(blocks, ring, i, bp, base, lo, hi);
    if Harmless(blocks, ring, i, bp) {
      assert FreedBlocks(blocks, ring, i, bp) == blocks;
      InsertAscends(ring, i, bp, lo, hi);
    } else if !JoinsLower(blocks, ring, i, bp) && i + 1 == |ring| {
      assert FreedRing(blocks, ring, i, bp)[0] == ring[1];
    }
  }

  // ----- bytes -----

  /** The payload bytes of all blocks. */
  ghost function Total(blocks: Blocks): nat {
    if blocks == map[] then 0 else
      var a :| a in blocks;
      blocks[a] + Total(blocks - {a})
  }

  lemma {:induction false} TotalWithout(blocks: Blocks, a: nat)
    requires a in blocks
    ensures Total(blocks) == blocks[a] + Total(blocks - {a}) && |blocks| == 1 + |blocks - {a}|
    decreases |blocks|
  {
    var rest := blocks - {a};
    assert rest.Keys == blocks.Keys - {a};
    var b :| b in blocks && Total(blocks) == blocks[b] + Total(blocks - {b});
    assert (blocks - {b}).Keys == blocks.Keys - {b};
    if b != a {
      assert rest - {b} == (blocks - {b}) - {a};
      TotalWithout(blocks - {b}, a);
      TotalWithout(rest, b);
    }
  }

  lemma TotalWith(blocks: Blocks, a: nat, size: nat)
    requires a !in blocks
    ensures Total(blocks[a := size]) == Total(blocks) + size && |blocks[a := size]| == |blocks| + 1
  {
    TotalWithout(blocks[a := size], a);
    assert blocks[a := size] - {a} == blocks;
  }

  /** One block swallows another: the payloads stay, one header is gone. */
  lemma TotalJoined(blocks: Blocks, a: nat, b: nat)
    requires a in blocks && b in blocks && a != b
    ensures var joined := (blocks - {b})[a := blocks[a] + blocks[b]];
      Total(joined) == Total(blocks) && |joined| + 1 == |blocks|
  {
    TotalWithout(blocks, b);
    TotalWithout(blocks - {b}, a);
    TotalWith(blocks - {b} - {a}, a, blocks[a] + blocks[b]);
    assert (blocks - {b} - {a})[a := blocks[a] + blocks[b]] == (blocks - {b})[a := blocks[a] + blocks[b]];
  }

  /** The blocks of a tiled region account for all its bytes. */
  lemma {:induction false} TilesTotal(blocks: Blocks, lo: nat, hi: nat)
    requires Tiles(blocks, lo, hi) && lo <= hi
    ensures Total(blocks) + HEADER * |blocks| == hi - lo
    decreases |blocks|
  {
    if lo < hi {
      assert Covered(blocks, hi - 1);
      var a: nat :| Covers(blocks, a, hi - 1);
      TotalWithout(blocks, a);
      WithoutLast(blocks, a, lo, hi);
      TilesTotal(blocks - {a}, lo, a);
    } else {
      assert forall a :: a !in blocks;
    }
  }

  lemma WithoutLast(blocks: Blocks, a: nat, lo: nat, hi: nat)
    requires Tiles(blocks, lo, hi) && a in blocks && End(blocks, a) >= hi
    ensures lo <= a && End(blocks, a) == hi && Tiles(blocks - {a}, lo, a)
  {
    var rest := blocks - {a};
    forall x: nat | lo <= x < a ensures Covered(rest, x) {
      assert Covered(blocks, x);
      var c: nat :| Covers(blocks, c, x);
      assert Covers(rest, c, x);
    }
  }

  /** The number of adjacency tests of tj_free that join two blocks. */
  ghost function Joins(blocks: Blocks, ring: seq<nat>, i: nat, bp: nat): nat
    requires i < |ring| && bp in blocks
  {
    (if JoinsUpper(blocks, ring, i, bp) && i + 1 < |ring| then 1 else 0)
    + if JoinsLower(blocks, ring, i, bp) then 1 else 0
  }

  /** tj_free keeps every payload byte, and each join of two blocks loses the eight bytes of one header. */
  lemma FreeLosesHeaders(blocks: Blocks, ring: seq<nat>, i: nat, bp: nat, base: nat, lo: nat, hi: nat)
    requires WellFormed(blocks, ring, base, lo, hi) && InMemory(base, lo, hi)
    requires bp in blocks && bp !in ring && i < |ring| && GapAt(ring, bp, i)
    ensures var after, joins := FreedBlocks(blocks, ring, i, bp), Joins(blocks, ring, i, bp);
      && Total(after) == Total(blocks) && |after| + joins == |blocks|
      && Total(after) + HEADER * |after| + HEADER * joins == hi - lo
  {
    hide InWords, JoinsUpper, JoinsLower, Tiles, Total;
    Neighbours(blocks, ring, i, bp, base, lo, hi);
    TilesTotal(blocks, lo, hi);
    var b, q, p := UpperJoined(blocks, ring, i, bp), After(ring, i), ring[i];
    if JoinsUpper(blocks, ring, i, bp) && i + 1 < |ring| {
      TotalJoined(blocks, bp, q);
    } else {
      assert b == blocks;
    }
    if JoinsLower(blocks, ring, i, bp) {
      TotalJoined(b, p, bp);
    }
  }

  /** A cut that lands on new ground turns the payload into two and a header. */
  lemma CutKeepsBytes(blocks: Blocks, p: nat, s: nat)
    requires p in blocks && s + HEADER <= blocks[p] < UINT_MAX_PLUS_1 && TakenHeader(blocks, p, s) !in blocks
    ensures var after := TakenBlocks(blocks, p, s);
      Total(after) + HEADER == Total(blocks) && |after| == |blocks| + 1 && after[TakenHeader(blocks, p, s)] == s
  {
    hide Total, Step;
    var r, b := Remainder(blocks[p], s), TakenHeader(blocks, p, s);
    TotalWithout(blocks, p);
    TotalWith(blocks - {p}, p, r);
    assert (blocks - {p})[p := r] == blocks[p := r];
    TotalWith(blocks[p := r], b, s);
  }

  // ----- tj_malloc -----

  /** Line 116 in 32 bits: what is left of a block of the given size. */
  function Remainder(blockSize: nat, s: nat): nat { (blockSize - (s + HEADER)) % UINT_MAX_PLUS_1 }

  /** Lines 113-119: all blocks after s bytes are taken from p, which the code finds big enough. */
  ghost function TakenBlocks(blocks: Blocks, p: nat, s: nat): Blocks {
    if SizeOf(blocks, p) == s then blocks
    else
      var r := Remainder(SizeOf(blocks, p), s);
      blocks[p := r][Step(p, r) := s]
  }

  /** The header handed out. */
  ghost function TakenHeader(blocks: Blocks, p: nat, s: nat): nat {
    if SizeOf(blocks, p) == s then p else Step(p, Remainder(SizeOf(blocks, p), s))
  }

  /** An exact block leaves the list, unless it is the only member. */
  ghost function TakenRing(blocks: Blocks, ring: seq<nat>, k: nat, s: nat): seq<nat>
    requires k < |ring|
  {
    if SizeOf(blocks, ring[k]) == s && |ring| > 1 then RemoveAt(ring, k) else ring
  }

  /** An exact block, or base on a list without blocks. */
  ghost predicate Exact(blocks: Blocks, ring: seq<nat>, p: nat, s: nat) {
    SizeOf(blocks, p) == s && (p in blocks || |ring| == 1)
  }

  /** tj_malloc keeps the heap well-formed exactly when what it takes is exact. */
  lemma MallocIff(blocks: Blocks, ring: seq<nat>, k: nat, s: nat, base: nat, lo: nat, hi: nat)
    requires WellFormed(blocks, ring, base, lo, hi) && InMemory(base, lo, hi)
    requires k < |ring| && SizeOf(blocks, ring[k]) >= s
    ensures WellFormed(TakenBlocks(blocks, ring[k], s), TakenRing(blocks, ring, k, s), base, lo, hi)
      <==> Exact(blocks, ring, ring[k], s)
    ensures Exact(blocks, ring, ring[k], s) && k > 0 ==> ring[k] !in TakenRing(blocks, ring, k, s)
  {
    hide Tiles;
    var p := ring[k];
    MemberOf(blocks, ring, k, base, lo, hi);
    if SizeOf(blocks, p) != s {
      SplitBreaks(blocks, p, s, lo, hi);
    } else if k > 0 {
      RemoveAscends(ring, k, lo, hi);
      ElementsAfterRemove(ring, k, lo, hi);
    }
  }

  lemma MemberOf(blocks: Blocks, ring: seq<nat>, k: nat, base: nat, lo: nat, hi: nat)
    requires WellFormed(blocks, ring, base, lo, hi) && k < |ring|
    ensures if k == 0 then ring[k] == base && base !in blocks else ring[k] in blocks && ring[k] != base
  {
    if base in blocks { InTiles(blocks, base, lo, hi); }
  }

  /** A byte of the region without an owner. */
  lemma Uncovered(after: Blocks, lo: nat, hi: nat, x: nat)
    requires lo <= x < hi && forall c :: !Covers(after, c, x)
    ensures !Tiles(after, lo, hi)
  {
    assert !Covered(after, x);
  }

  lemma SplitBreaks(blocks: Blocks, p: nat, s: nat, lo: nat, hi: nat)
    requires Tiles(blocks, lo, hi) && lo <= hi < UINT_MAX_PLUS_1 && hi - lo <= MAX_HEAP && p in blocks && blocks[p] > s
    ensures !Tiles(TakenBlocks(blocks, p, s), lo, hi)
  {
    InTiles(blocks, p, lo, hi);
    var r := Remainder(blocks[p], s);
    var after, p2 := TakenBlocks(blocks, p, s), Step(p, r);
    if blocks[p] < s + HEADER {
      assert r >= UINT_MAX_PLUS_1 - HEADER && p2 != p;
      assert End(after, p) > hi;
    } else {
      assert r == blocks[p] - (s + HEADER);
      assert p2 != p + HEADER + r;
      assert p2 == p ==> r == 0;
      if p2 == p {
        ShorterLosesBytes(blocks, p, s, after, lo, hi);
      } else {
        SplitMisses(blocks, p, r, s, p2, after, lo, hi);
      }
    }
  }

  /** A block cut short with no block behind it: its last byte has no owner. */
  lemma ShorterLosesBytes(blocks: Blocks, p: nat, s: nat, after: Blocks, lo: nat, hi: nat)
    requires Tiles(blocks, lo, hi) && p in blocks && blocks[p] > s && after == blocks[p := s]
    ensures !Tiles(after, lo, hi)
  {
    var x := End(blocks, p) - 1;
    forall c ensures !Covers(after, c, x) {
      if c in after && c != p { assert !Covers(blocks, c, x); }
    }
    Uncovered(after, lo, hi, x);
  }

  lemma Overlap(after: Blocks, a: nat, b: nat, lo: nat, hi: nat)
    requires a in after && b in after && a < b < End(after, a)
    ensures !Tiles(after, lo, hi)
  {
  }

  /** The byte behind the remainder stays without an owner, or is claimed together with the byte before it. */
  lemma SplitMisses(blocks: Blocks, p: nat, r: nat, s: nat, p2: nat, after: Blocks, lo: nat, hi: nat)
    requires Tiles(blocks, lo, hi) && p in blocks && blocks[p] == r + HEADER + s
    requires p2 != p + HEADER + r && p2 != p && after == blocks[p := r][p2 := s]
    ensures !Tiles(after, lo, hi)
  {
    var x := p + HEADER + r;
    assert End(after, p) == x;
    if p2 < p && p < End(after, p2) {
      Overlap(after, p2, p, lo, hi);
    } else if p < p2 && p2 < x {
      Overlap(after, p, p2, lo, hi);
    } else {
      forall c ensures !Covers(after, c, x) {
        if c in after && c != p && c != p2 { assert !Covers(blocks, c, x); }
      }
      Uncovered(after, lo, hi, x);
    }
  }

  /**
   The block handed out is no live block, is off the list, lies inside the used heap and overlaps no
   other block.
   */
  ghost predicate HandedOutSafely(blocks: Blocks, ring: seq<nat>, k: nat, s: nat, lo: nat, hi: nat)
    requires k < |ring|
  {
    var p := ring[k];
    var header, after := TakenHeader(blocks, p, s), TakenBlocks(blocks, p, s);
    && header !in LiveOf(blocks, ring) && header !in TakenRing(blocks, ring, k, s)
    && lo <= header && header + HEADER + s <= hi
    && AwayFrom(after, header, s)
  }

  /** s bytes behind the header a overlap no block but a. */
  ghost predicate AwayFrom(blocks: Blocks, a: nat, s: nat) {
    forall c :: c in blocks && c != a ==> End(blocks, c) <= a || a + HEADER + s <= c
  }

  /** tj_malloc hands out a block safely exactly when the size found is exact: a cut never does. */
  lemma SafeIff(blocks: Blocks, ring: seq<nat>, k: nat, s: nat, base: nat, lo: nat, hi: nat)
    requires WellFormed(blocks, ring, base, lo, hi) && InMemory(base, lo, hi)
    requires 1 <= k < |ring| && blocks[ring[k]] >= s
    ensures HandedOutSafely(blocks, ring, k, s, lo, hi) <==> blocks[ring[k]] == s
  {
    hide InWords, Positive, Step, Remainder;
    var p := ring[k];
    InTiles(blocks, p, lo, hi);
    if blocks[p] == s {
      RemoveAscends(ring, k, lo, hi);
      ElementsAfterRemove(ring, k, lo, hi);
    } else if HandedOutSafely(blocks, ring, k, s, lo, hi) {
      OnlySafePlace(blocks, p, Remainder(blocks[p], s), s, TakenHeader(blocks, p, s), lo, hi);
      RemainderCases(p, blocks[p], s);
    }
  }

  /** A header that is new and gets s bytes to itself can only stand right behind what remains of p. */
  lemma OnlySafePlace(blocks: Blocks, p: nat, r: nat, s: nat, p2: nat, lo: nat, hi: nat)
    requires Tiles(blocks, lo, hi) && p in blocks && p2 !in blocks && lo <= p2 && p2 + HEADER + s <= hi
    requires AwayFrom(blocks[p := r][p2 := s], p2, s)
    ensures p2 == p + HEADER + r || p + HEADER + r < p2
    ensures p < p2 && p2 + HEADER + s <= End(blocks, p)
  {
    var after := blocks[p := r][p2 := s];
    assert End(after, p) == p + HEADER + r;
    OwnerIs(blocks, after, p, p2, s, p2, lo, hi);
    OwnerIs(blocks, after, p, p2, s, p2 + HEADER + s - 1, lo, hi);
  }

  /** A byte of the new block belonged to p: any other owner would still hold it. */
  lemma OwnerIs(blocks: Blocks, after: Blocks, p: nat, p2: nat, s: nat, x: nat, lo: nat, hi: nat)
    requires Tiles(blocks, lo, hi) && p2 !in blocks && lo <= x < hi && p2 <= x < p2 + HEADER + s
    requires forall c :: c in blocks && c != p ==> c in after && after[c] == blocks[c]
    requires AwayFrom(after, p2, s)
    ensures Covers(blocks, p, x)
  {
    assert Covered(blocks, x);
    var c: nat :| Covers(blocks, c, x);
  }

  lemma RemainderCases(p: nat, size: nat, s: nat)
    requires s < size <= MAX_HEAP && p + HEADER + size < UINT_MAX_PLUS_1
    ensures size < s + HEADER ==> p + HEADER + Remainder(size, s) >= UINT_MAX_PLUS_1
    ensures size >= s + HEADER ==> Remainder(size, s) == size - s - HEADER
    ensures size >= s + HEADER ==> Step(p, Remainder(size, s)) != p + HEADER + Remainder(size, s)
  {
  }

  /** With exactly a header to spare, the block handed out stays on the list, and is exact for the next such request. */
  lemma OneHeaderToSpare(blocks: Blocks, ring: seq<nat>, k: nat, s: nat)
    requires k < |ring| && ring[k] in blocks && blocks[ring[k]] == s + HEADER && ring[k] < UINT_MAX_PLUS_1
    ensures TakenHeader(blocks, ring[k], s) == ring[k] && ring[k] in TakenRing(blocks, ring, k, s)
    ensures var after := TakenBlocks(blocks, ring[k], s);
      ring[k] in after && after[ring[k]] == s && TakenHeader(after, ring[k], s) == ring[k]
  {
  }

  /** A 16-byte block asked for 4 bytes: the header handed out lies behind the end of the used heap. */
  lemma SplitExample()
    ensures var blocks: Blocks := map[0x1000 := 16];
      && WellFormed(blocks, [0x100, 0x1000], 0x100, 0x1000, 0x1018)
      && TakenHeader(blocks, 0x1000, 4) == 0x1020
  {
    var blocks: Blocks := map[0x1000 := 16];
    forall x: nat | 0x1000 <= x < 0x1018 ensures Covered(blocks, x) {
      assert Covers(blocks, 0x1000, x);
    }
    assert [0x100, 0x1000][1] == 0x1000;
  }

  /** Freeing 16 bytes eight headers below a free block merges the two across the live block between them. */
  lemma FreeExample()
    ensures var blocks: Blocks := map[0x1000 := 16, 0x1018 := 96, 0x1080 := 16];
      && WellFormed(blocks, [0x100, 0x1080], 0x100, 0x1000, 0x1098)
      && JoinsUpper(blocks, [0x100, 0x1080], 0, 0x1000)
      && Covers(FreedBlocks(blocks, [0x100, 0x1080], 0, 0x1000), 0x1000, 0x1018)
  {
    var blocks: Blocks := map[0x1000 := 16, 0x1018 := 96, 0x1080 := 16];
    var ring := [0x100, 0x1080];
    forall x: nat | 0x1000 <= x < 0x1098 ensures Covered(blocks, x) {
      assert Covers(blocks, if x < 0x1018 then 0x1000 else if x < 0x1080 then 0x1018 else 0x1080, x);
    }
    assert ring[1] == 0x1080;
    assert !JoinsLower(blocks, ring, 0, 0x1000);
  }

  /** With base above the heap, where a freed block, read in headers, ends: base drops off the list. */
  lemma DropExample()
    ensures var blocks: Blocks := map[0x1000 := 16, 0x1018 := 16];
      && WellFormed(blocks, [0x1098, 0x1000], 0x1098, 0x1000, 0x1030)
      && FreedBlocks(blocks, [0x1098, 0x1000], 1, 0x1018) == blocks
      && FreedRing(blocks, [0x1098, 0x1000], 1, 0x1018) == [0x1000, 0x1018]
  {
    var blocks: Blocks := map[0x1000 := 16, 0x1018 := 16];
    var ring := [0x1098, 0x1000];
    forall x: nat | 0x1000 <= x < 0x1030 ensures Covered(blocks, x) {
      assert Covers(blocks, if x < 0x1018 then 0x1000 else 0x1018, x);
    }
    assert ring[1] == 0x1000 && JoinsUpper(blocks, ring, 1, 0x1018) && !JoinsLower(blocks, ring, 1, 0x1018);
    assert blocks - {0x1098} == blocks;
  }
}
