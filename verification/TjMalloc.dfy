/**
 test_progs/tj_malloc.h: the free-list allocator, in byte addresses. Where it follows the stated
 intent instead of the code's arithmetic, a line is marked DEVIATION: the fit test, the two
 adjacency tests, the two merged sizes and the place of a split. TjMallocAsWritten has the code's
 own arithmetic.
 */
module TjMalloc {
  import opened Counting
  import opened HeapBlocks

  /** Big enough: exactly the size, or room for the rest to keep a header, which the code does not ask for. */
  predicate Fits(blockSize: nat, size: nat) { blockSize == size || blockSize >= size + HEADER }

  /** Two blocks of these sizes, as one. */
  function Together(front: nat, back: nat): nat { front + HEADER + back }

  /** Exactly what can be served whole, or by cutting off a block that leaves one in front of it. */
  lemma FitsMeansServable(blockSize: nat, size: nat)
    ensures Fits(blockSize, size) <==> blockSize == size || exists rest: nat :: blockSize == Together(rest, size)
  {
    if blockSize >= size + HEADER {
      assert blockSize == Together(blockSize - HEADER - size, size);
    }
  }

  // What tj_free leaves of the list: bp has its place behind ring[i].

  ghost predicate MeetsUpper(blocks: Blocks, ring: seq<nat>, bp: nat, i: nat) {
    bp in blocks && i + 1 < |ring| && ring[i + 1] in blocks && End(blocks, bp) == ring[i + 1]
  }

  ghost predicate MeetsLower(blocks: Blocks, ring: seq<nat>, bp: nat, i: nat) {
    bp in blocks && 1 <= i < |ring| && ring[i] in blocks && End(blocks, ring[i]) == bp
  }

  /** bp stands behind ring[i], in one block with the successor that begins where bp ends. */
  ghost predicate UpperDone(blocks0: Blocks, ring0: seq<nat>, bp: nat, i: nat, blocks: Blocks, ring: seq<nat>) {
    if MeetsUpper(blocks0, ring0, bp, i)
    then blocks == Merged(blocks0, bp, ring0[i + 1]) && ring == ring0[i + 1 := bp]
    else blocks == blocks0 && i < |ring0| && ring == InsertAfter(ring0, i, bp)
  }

  /** The block behind ring[i] is in one block with ring[i], should that end where it begins. */
  ghost predicate LowerDone(blocks0: Blocks, ring0: seq<nat>, bp: nat, i: nat, blocks: Blocks, ring: seq<nat>) {
    if MeetsLower(blocks0, ring0, bp, i)
    then blocks == Merged(blocks0, ring0[i], bp) && i + 1 < |ring0| && ring == RemoveAt(ring0, i + 1)
    else blocks == blocks0 && ring == ring0
  }

  /** bp has gone to its place behind p, joined with each neighbour that it touches. */
  ghost predicate Freed(blocks0: Blocks, ring0: seq<nat>, bp: nat, p: nat, blocks: Blocks, ring: seq<nat>) {
    exists i: nat, b: Blocks, r: seq<nat> ::
      PlaceOf(ring0, bp, p, i) && UpperDone(blocks0, ring0, bp, i, b, r) && LowerDone(b, r, bp, i, blocks, ring)
  }

  /** The list before the first allocation, as the first lines of tj_malloc set it up. */
  ghost function Started(base: nat, ring: seq<nat>): seq<nat> {
    if ring == [] then [base] else ring
  }

  /**
   The heap has grown for s bytes at up: they are in use, the list is as before, and it goes on
   behind its last member, or one before that when up begins where the last member ends.
   */
  ghost predicate Grown(blocks0: Blocks, ring0: seq<nat>, up: nat, s: nat, q: nat, blocks: Blocks, ring: seq<nat>) {
    && ring == ring0 && blocks == blocks0[up := s]
    && ring0 != []
    && q == ring0[|ring0| - if MeetsLower(blocks0[up := s], ring0, up, |ring0| - 1) then 2 else 1]
  }

  ghost predicate NoneFits(blocks: Blocks, ring: seq<nat>, s: nat) {
    forall a :: a in ring && a in blocks ==> !Fits(blocks[a], s)
  }

  /** A block on top of the heap goes to the end of the list. */
  lemma FreedOnTop(blocks0: Blocks, ring0: seq<nat>, up: nat, s: nat, p: nat, blocks: Blocks, ring: seq<nat>, lo: nat)
    requires Ascending(ring0, lo, up) && Freed(blocks0[up := s], ring0, up, p, blocks, ring)
    ensures var m, last := blocks0[up := s], |ring0| - 1;
      if MeetsLower(m, ring0, up, last) then ring == ring0 && blocks == Merged(m, ring0[last], up)
      else ring == ring0 + [up] && blocks == m
  {
    hide MeetsLower;
    var m, last := blocks0[up := s], |ring0| - 1;
    var i: nat, b: Blocks, r: seq<nat> :|
      PlaceOf(ring0, up, p, i) && UpperDone(m, ring0, up, i, b, r) && LowerDone(b, r, up, i, blocks, ring);
    assert i == last;
    assert b == m && r == ring0 + [up];
    assert MeetsLower(m, r, up, last) <==> MeetsLower(m, ring0, up, last) by { SameMeeting(m, ring0, r, up, last); }
    assert RemoveAt(r, last + 1) == ring0;
  }

  lemma SameMeeting(blocks: Blocks, ring: seq<nat>, longer: seq<nat>, bp: nat, i: nat)
    requires i < |ring| <= |longer| && ring[i] == longer[i]
    ensures MeetsLower(blocks, ring, bp, i) <==> MeetsLower(blocks, longer, bp, i)
  {
  }

  lemma BelowTop(ring: seq<nat>, lo: nat, up: nat)
    requires Ascending(ring, lo, up)
    ensures ring != [] && forall i :: 1 <= i < |ring| ==> ring[i] < up
    ensures forall i :: 1 <= i < |ring| - 1 ==> ring[i] != ring[|ring| - 1]
  {
  }

  /** After the heap has grown only the block at its top fits, and its end serves the request. */
  lemma GrownServes(blocks0: Blocks, ring0: seq<nat>, up: nat, s: nat, p: nat,
                    blocks: Blocks, ring: seq<nat>, lo: nat, k: nat)
    requires Ascending(ring0, lo, up) && Freed(blocks0[up := s], ring0, up, p, blocks, ring) && up !in blocks0
    requires NoneFits(blocks0, ring0, s)
    requires 1 <= k < |ring| && ring[k] in blocks && Fits(blocks[ring[k]], s)
    ensures End(blocks, ring[k]) == up + HEADER + s
    ensures if blocks[ring[k]] == s then Grown(blocks0, ring0, up, s, ring[k - 1], blocks, RemoveAt(ring, k))
      else Grown(blocks0, ring0, up, s, ring[k - 1], blocks[ring[k] := blocks[ring[k]] - (s + HEADER)][up := s], ring)
  {
    hide Ascending, Freed;
    FreedOnTop(blocks0, ring0, up, s, p, blocks, ring, lo);
    var m, last := blocks0[up := s], |ring0| - 1;
    BelowTop(ring0, lo, up);
    if MeetsLower(m, ring0, up, last) {
      assert k == last;
      assert blocks[ring[k] := blocks[ring[k]] - (s + HEADER)][up := s] == m;
    } else {
      assert k == last + 1;
      assert RemoveAt(ring, k) == ring0;
    }
  }

  class Allocator {
    const base: nat
    const heap: nat
    const heapSize: nat
    var next: map<nat, nat>   // the link of every header written so far
    var size: map<nat, nat>   // the payload size of every header written so far
    var freep: nat
    var nextIndex: nat
    var availMem: nat
    ghost var ring: seq<nat>  // the free list from base on, or empty before the first allocation
    ghost var blocks: Blocks  // free and live blocks

    /** The base header lies apart from the heap, so that no block is ever adjacent to it. */
    ghost predicate Geometry() {
      base > NULL && heap > NULL && (base + HEADER < heap || heap + heapSize < base)
    }

    /** All bytes below nextIndex belong to blocks, and none of them has been lost. */
    ghost predicate Region()
      reads this
    {
      && Geometry() && heap <= nextIndex && nextIndex - heap + availMem == heapSize
      && Tiles(blocks, heap, nextIndex)
      && InWords(blocks, heap, nextIndex)
      && (forall a :: a in blocks ==> a in size && size[a] == blocks[a])
      && base in size && size[base] == 0
    }

    /** The free list is one coalesced ring through base, in address order, with freep on it. */
    ghost predicate Listed()
      reads this
    {
      && Region()
      && Ascending(ring, heap, nextIndex) && ring[0] == base
      && Linked(next, ring, -1) && Apart(blocks, ring, -1)
      && freep in ring
    }

    ghost predicate Valid()
      reads this
    {
      if freep == NULL then
        Geometry() && ring == [] && blocks == map[] && nextIndex == heap && availMem == heapSize
      else Listed()
    }

    /** The blocks handed out and not yet freed, with their payload sizes. */
    ghost function Live(): Blocks
      reads this
    {
      LiveOf(blocks, ring)
    }

    /** The static initial state: an untouched heap and no list. */
    constructor (base: nat, heap: nat, heapSize: nat)
      requires base > NULL && heap > NULL && (base + HEADER < heap || heap + heapSize < base)
      ensures Valid() && Live() == map[] && this.heap == heap && this.heapSize == heapSize && this.base == base
    {
      this.base, this.heap, this.heapSize := base, heap, heapSize;
      next, size, freep, nextIndex, availMem := map[], map[], NULL, heap, heapSize;
      ring, blocks := [], map[];
    }

    /** The first lines of tj_malloc: a list that holds only base. */
    method InitList()
      requires Valid() && freep == NULL
      modifies this
      ensures Listed() && freep == base && ring == [base] && blocks == map[] && Live() == map[]
      ensures nextIndex == old(nextIndex) && availMem == old(availMem)
    {
      freep := base;
      next := next[base := freep];
      size := size[base := 0];
      ring := [base];
    }

    /** Some block of the free list is big enough. */
    ghost predicate HasFit(size: nat)
      reads this
    {
      exists a :: a in ring && a in blocks && Fits(blocks[a], size)
    }

    /** The state between the two joins: bp follows ring[i], which does not link to it yet. */
    ghost predicate HalfListed(bp: nat, i: nat)
      reads this
    {
      && Region()
      && Ascending(ring, heap, nextIndex) && ring[0] == base
      && Linked(next, ring, i) && Apart(blocks, ring, i)
      && i + 1 < |ring| && ring[i + 1] == bp
    }

    /** Lines 58-65: bp takes over the link of p, swallowing the block right above it. */
    method JoinUpper(bp: nat, p: nat, ghost i: nat)
      requires Listed() && bp in blocks && bp !in ring && i < |ring| && ring[i] == p && GapAt(ring, bp, i)
      modifies this`next, this`size, this`ring, this`blocks
      ensures HalfListed(bp, i) && ring[i] == p && Live() == old(Live()) - {bp}
      ensures UpperDone(old(blocks), old(ring), bp, i, blocks, ring)
      ensures Fits(blocks[bp], old(blocks)[bp])
    {
      hide Tiles, InWords, Ascending, Linked, Apart, LiveOf, GapAt, After, InsertAfter;
      NextOf(next, ring, i, -1);
      SuccessorOf(bp, i);
      BaseIsNoBlock(bp);
      var q := next[p];
      if bp + HEADER + size[bp] == q {  // DEVIATION from `bp + bp->size == p->next`: bytes, counting the header
        UpperIsBlock(bp, i);
        NextOf(next, ring, i + 1, -1);
        size := size[bp := size[bp] + HEADER + size[q]];  // DEVIATION: the swallowed header is counted
        next := next[bp := next[q]];
        TilesMerge(blocks, bp, q, heap, nextIndex);
        WordsMerge(blocks, bp, q, heap, nextIndex);
        ReplaceAscends(ring, i, bp, heap, nextIndex);
        ReplaceLinks(old(next), ring, i, bp);
        ReplaceApart(blocks, ring, i, bp, heap, nextIndex);
        ReplaceLive(blocks, ring, i, bp, heap, nextIndex);
        blocks, ring := Merged(blocks, bp, q), ring[i + 1 := bp];
      } else {
        UpperIsShort(bp, i);
        next := next[bp := q];
        InsertAscends(ring, i, bp, heap, nextIndex);
        InsertLinks(old(next), ring, i, bp);
        InsertApart(blocks, ring, i, bp);
        InsertLive(blocks, ring, i, bp);
        ring := InsertAfter(ring, i, bp);
      }
    }

    /** A block lies inside the region, and base does not. */
    lemma BaseIsNoBlock(bp: nat)
      requires Region() && bp in blocks
      ensures bp != base && heap <= bp < nextIndex && base !in blocks
    {
    }

    lemma UpperIsBlock(bp: nat, i: nat)
      requires Listed() && bp in blocks && i < |ring| && End(blocks, bp) == After(ring, i)
      ensures i + 1 < |ring| && ring[i + 1] == After(ring, i) && ring[i + 1] in blocks
    {
    }

    lemma UpperIsShort(bp: nat, i: nat)
      requires Listed() && bp in blocks && i < |ring| && GapAt(ring, bp, i) && End(blocks, bp) != After(ring, i)
      ensures i + 1 < |ring| ==> End(blocks, bp) < ring[i + 1]
    {
    }

    /** The test of the upper join is right: base, behind the last block, is not met. */
    lemma SuccessorOf(bp: nat, i: nat)
      requires Listed() && bp in blocks && i < |ring|
      ensures End(blocks, bp) == After(ring, i) <==> MeetsUpper(blocks, ring, bp, i)
    {
    }

    /** Lines 67-72: p links to bp, or swallows it when bp begins where p ends. */
    method JoinLower(bp: nat, p: nat, ghost i: nat)
      requires HalfListed(bp, i) && ring[i] == p
      modifies this`next, this`size, this`ring, this`blocks
      ensures Region() && Ascending(ring, heap, nextIndex) && ring[0] == base
      ensures Linked(next, ring, -1) && Apart(blocks, ring, -1)
      ensures p in ring && Live() == old(Live())
      ensures LowerDone(old(blocks), old(ring), bp, i, blocks, ring)
      ensures HasFit(old(blocks)[bp])
    {
      hide Tiles, InWords, Ascending, Linked, Apart, LiveOf, After, RemoveAt, Distinct;
      MiddleOf(bp, i);
      if p + HEADER + size[p] == bp {  // DEVIATION from `p + p->size == bp`: bytes, counting the header
        NextOf(next, ring, i + 1, i);
        size := size[p := size[p] + HEADER + size[bp]];  // DEVIATION: the swallowed header is counted
        next := next[p := next[bp]];
        TilesMerge(blocks, p, bp, heap, nextIndex);
        WordsMerge(blocks, p, bp, heap, nextIndex);
        RemoveAscends(ring, i + 1, heap, nextIndex);
        AscendingDistinct(ring, heap, nextIndex);
        RemoveLinks(old(next), ring, i + 1, i);
        SwallowApart(blocks, ring, i, heap, nextIndex);
        SwallowLive(blocks, ring, i, heap, nextIndex);
        blocks, ring := Merged(blocks, p, bp), RemoveAt(ring, i + 1);
        assert ring[i] == p && p in blocks && Fits(blocks[p], old(blocks)[bp]);
      } else {
        next := next[p := bp];
        AscendingDistinct(ring, heap, nextIndex);
        LinkLinks(old(next), ring, i);
        LowerIsShort(bp, i);
        LinkApart(blocks, ring, i);
        assert ring[i + 1] == bp && Fits(blocks[bp], old(blocks)[bp]);
      }
    }

    /** What the lower join reads: bp is a block, p is base or a block, and base never reaches bp. */
    lemma MiddleOf(bp: nat, i: nat)
      requires HalfListed(bp, i)
      ensures bp in blocks && bp != base && bp != ring[i] && ring[i] in size
      ensures if i == 0 then ring[i] == base && base + HEADER != bp else ring[i] in blocks && ring[i] != base
    {
    }

    lemma LowerIsShort(bp: nat, i: nat)
      requires Region() && Ascending(ring, heap, nextIndex) && Apart(blocks, ring, i)
      requires i + 1 < |ring| && ring[i + 1] == bp && (i >= 1 ==> End(blocks, ring[i]) != bp)
      ensures i >= 1 ==> End(blocks, ring[i]) < bp
    {
    }

    /** The body of tj_free after its range check, for the header bp of a block that is not in the list. */
    method Insert(bp: nat)
      requires Listed() && bp in blocks && bp !in ring
      modifies this`next, this`size, this`ring, this`blocks, this`freep
      ensures Listed() && Live() == old(Live()) - {bp}
      ensures HasFit(old(blocks)[bp])
      ensures Freed(old(blocks), old(ring), bp, freep, blocks, ring)
    {
      hide Tiles, InWords, Ascending, Linked, Apart, LiveOf, GapAt, After, UpperDone, LowerDone;
      BaseIsNoBlock(bp);
      var p := FindPlace(next, freep, bp, ring, heap, nextIndex);
      ghost var i: nat :| PlaceOf(ring, bp, p, i);
      JoinUpper(bp, p, i);
      MiddleOf(bp, i);
      ghost var upper := blocks[bp];
      JoinLower(bp, p, i);
      ghost var a :| a in ring && a in blocks && Fits(blocks[a], upper);
      assert Fits(blocks[a], old(blocks)[bp]);
      freep := p;
    }

    /** tj_free of a live block, or of an address outside the heap, which the program answers with exit(1). */
    method Free(mem: nat) returns (ok: bool)
      requires Valid()
      requires heap <= mem <= heap + heapSize ==> mem >= HEADER && mem - HEADER in Live()
      modifies this
      ensures Valid() && nextIndex == old(nextIndex) && availMem == old(availMem)
      ensures ok <==> heap <= mem <= heap + heapSize
      ensures ok ==> Live() == old(Live()) - {mem - HEADER}
      ensures ok ==> Freed(old(blocks), old(ring), mem - HEADER, freep, blocks, ring)
      ensures !ok ==>
        ring == old(ring) && blocks == old(blocks) && freep == old(freep) && next == old(next) && size == old(size)
    {
      hide Tiles, InWords, Ascending, Linked, Apart, HasFit, Freed;
      if mem < heap || mem > heap + heapSize {
        return false;
      }
      Insert(mem - HEADER);
      ListedIsValid();
      return true;
    }

    /** A new block of total bytes on top of the heap goes through tj_free into the list. */
    method GetMoreMem(total: nat) returns (ok: bool)
      requires Listed() && total >= HEADER && total % 4 == 0
      modifies this
      ensures Listed() && Live() == old(Live())
      ensures ok <==> old(availMem) >= total
      ensures ok ==> HasFit(total - HEADER) && nextIndex == old(nextIndex) + total
      ensures ok ==> old(nextIndex) !in old(blocks)
      ensures ok ==>
        Freed(old(blocks)[old(nextIndex) := total - HEADER], old(ring), old(nextIndex), freep, blocks, ring)
      ensures !ok ==> nextIndex == old(nextIndex) && ring == old(ring) && blocks == old(blocks) && freep == old(freep)
    {
      hide Tiles, InWords, Ascending, Linked, Apart, LiveOf, Freed;
      if availMem < total {
        return false;
      }
      var up := nextIndex;
      ghost var live := Live();
      GrowList(total - HEADER);
      WordsGrow(blocks, heap, nextIndex, total - HEADER);
      nextIndex := nextIndex + total;
      availMem := availMem - total;
      size := size[up := total - HEADER];
      blocks := blocks[up := total - HEADER];
      Insert(up);
      assert Live() == live[up := total - HEADER] - {up} == live;
      return true;
    }

    lemma GrowList(s: nat)
      requires Listed() && availMem >= s + HEADER
      ensures nextIndex !in blocks && nextIndex !in ring && nextIndex != base
      ensures Tiles(blocks[nextIndex := s], heap, nextIndex + HEADER + s)
      ensures Ascending(ring, heap, nextIndex + HEADER + s) && Apart(blocks[nextIndex := s], ring, -1)
      ensures LiveOf(blocks[nextIndex := s], ring) == LiveOf(blocks, ring)[nextIndex := s]
      ensures nextIndex !in LiveOf(blocks, ring)
    {
      hide Tiles, InWords, Linked;
      TilesGrow(blocks, heap, nextIndex, s);
    }

    /** The exact case of tj_malloc: p leaves the list. */
    method TakeWhole(p: nat, prevp: nat, ghost k: nat)
      requires Listed() && 1 <= k < |ring| && ring[k] == p && ring[k - 1] == prevp
      modifies this`next, this`freep, this`ring
      ensures Listed() && p in blocks && p !in old(Live()) && Live() == old(Live())[p := blocks[p]]
      ensures freep == prevp && ring == RemoveAt(old(ring), k)
    {
      hide Tiles, InWords, Ascending, Linked, Apart, After, RemoveAt, Distinct;
      NextOf(next, ring, k, -1);
      InBlocks(k);
      next := next[prevp := next[p]];
      freep := prevp;
      RemoveAscends(ring, k, heap, nextIndex);
      AscendingDistinct(ring, heap, nextIndex);
      RemoveLinks(old(next), ring, k, -1);
      RemoveApart(blocks, ring, k, heap, nextIndex);
      RemoveLive(blocks, ring, k, heap, nextIndex);
      ring := RemoveAt(ring, k);
      assert ring[k - 1] == prevp;
    }

    lemma InBlocks(k: nat)
      requires Listed() && 1 <= k < |ring|
      ensures ring[k] in blocks && ring[k] != base && size[ring[k]] == blocks[ring[k]]
    {
    }

    /** The splitting case of tj_malloc: the end of p becomes a block of its own, which is handed out. */
    method TakeEnd(p: nat, prevp: nat, s: nat, ghost k: nat) returns (p2: nat)
      requires Listed() && 1 <= k < |ring| && ring[k] == p && ring[k - 1] == prevp
      requires size[p] >= s + HEADER && s % 4 == 0
      modifies this`size, this`freep, this`blocks
      ensures Listed() && p2 in blocks && p2 !in old(Live()) && Live() == old(Live())[p2 := s]
      ensures p2 + s == p + old(size)[p]
      ensures freep == prevp && blocks == old(blocks)[p := old(blocks)[p] - (s + HEADER)][p2 := s]
    {
      hide Tiles, InWords, Ascending, Linked, Apart, LiveOf;
      InBlocks(k);
      ghost var r := blocks[p] - s - HEADER;
      ShrinkApart(blocks, ring, k, r, s, heap, nextIndex);
      TilesSplit(blocks, p, r, s, heap, nextIndex);
      WordsSplit(blocks, p, r, s, heap, nextIndex);
      ShrinkLive(blocks, ring, k, r, p + HEADER + r, s);
      NotLive(p + HEADER + r);
      BaseIsNotInside(k, p + HEADER + r);
      size := size[p := size[p] - (s + HEADER)];
      p2 := p + HEADER + size[p];  // DEVIATION from `p += p->size`: bytes, behind the header
      size := size[p2 := s];
      blocks := blocks[p := r][p2 := s];
      freep := prevp;
    }

    lemma NotLive(b: nat)
      requires b !in blocks
      ensures b !in LiveOf(blocks, ring)
    {
    }

    lemma BaseIsNotInside(k: nat, x: nat)
      requires Listed() && 1 <= k < |ring| && ring[k] in blocks && ring[k] <= x < End(blocks, ring[k])
      ensures x != base
    {
    }

    /** p, reached from prevp, stands at position v of the lap from freep, and nothing before it was big enough. */
    ghost predicate Scanning(s: nat, f: nat, v: nat, prevp: nat, p: nat)
      reads this
    {
      && OnLap(ring, f, v, prevp, p) && ring[f] == freep
      && forall u :: 0 <= u < v ==> TooSmall(Lap(ring, f)[u], s)
    }

    ghost predicate TooSmall(a: nat, s: nat)
      reads this
    {
      a in size && !Fits(size[a], s)
    }

    /** base, which is not a block, would be handed out for a request of 0 bytes and for no other. */
    lemma BaseMatchesOnlyZero(request: nat)
      requires Listed()
      ensures Fits(size[base], request) <==> request == 0
    {
    }

    lemma InSize(p: nat)
      requires Listed() && p in ring
      ensures p in size
    {
      var i :| 0 <= i < |ring| && ring[i] == p;
      if i > 0 { InBlocks(i); }
    }

    /** What the scan needs to know about the place it has reached, and the step from there. */
    lemma AtScan(s: nat, f: nat, v: nat, prevp: nat, p: nat)
      requires Listed() && Scanning(s, f, v, prevp, p)
      ensures p in ring && p in size && p in next
      ensures p == freep <==> v == |ring| - 1
      ensures prevp in ring && prevp in next && next[prevp] == p
      ensures p != freep && TooSmall(p, s) ==> Scanning(s, f, v + 1, p, next[p])
    {
      hide Ascending, Linked, Tiles, Apart, Lap;
      AtLap(next, ring, f, v, prevp, p, heap, nextIndex);
      InSize(p);
    }

    /** A whole lap without success: no free block is big enough. */
    lemma LapIsOver(s: nat, f: nat, v: nat, prevp: nat, p: nat)
      requires Listed() && Scanning(s, f, v, prevp, p) && p == freep && TooSmall(p, s)
      ensures !HasFit(s)
    {
      hide Lap, Linked, Ascending, Tiles, Apart;
      AtScan(s, f, v, prevp, p);
      LapFollowsLinks(next, ring, f);
      var lap := Lap(ring, f);
      forall a | a in ring && a in blocks ensures !Fits(blocks[a], s) {
        assert a in lap;
        var u :| 0 <= u < |lap| && lap[u] == a;
        assert TooSmall(lap[u], s);
      }
    }

    /** A block that is big enough is not base, and its predecessor in the ring is prevp. */
    lemma FoundAt(s: nat, f: nat, v: nat, prevp: nat, p: nat) returns (k: nat)
      requires Listed() && Scanning(s, f, v, prevp, p) && s > 0 && p in size && Fits(size[p], s)
      ensures 1 <= k < |ring| && ring[k] == p && ring[k - 1] == prevp
      ensures p in blocks && size[p] == blocks[p] && HasFit(s)
    {
      hide Tiles, InWords, Ascending, Linked, Apart, Lap;
      AtScan(s, f, v, prevp, p);
      k := IndexOf(next, ring, prevp, p);
      assert p != base;
      InBlocks(k);
    }

    /**
     mem is the payload of s bytes at the end of the first block, on the lap that begins behind
     freep, that is big enough, and q is the member in front of that block.
     */
    ghost predicate FirstFit(s: nat, mem: nat, q: nat)
      reads this
    {
      exists f, v :: 0 <= f < |ring| && ring[f] == freep && 0 <= v < |ring| && FitsFirstAt(s, f, v, mem, q)
    }

    ghost predicate FitsFirstAt(s: nat, f: nat, v: nat, mem: nat, q: nat)
      requires f < |ring| && v < |ring|
      reads this
    {
      var lap := Lap(ring, f);
      && lap[v] in size && Fits(size[lap[v]], s) && mem + s == lap[v] + HEADER + size[lap[v]]
      && q == (if v == 0 then freep else lap[v - 1])
      && forall u :: 0 <= u < v ==> TooSmall(lap[u], s)
    }

    lemma FoundFirst(s: nat, f: nat, v: nat, prevp: nat, p: nat, mem: nat)
      requires Scanning(s, f, v, prevp, p) && p in size && Fits(size[p], s) && mem + s == p + HEADER + size[p]
      ensures FirstFit(s, mem, prevp)
    {
      assert FitsFirstAt(s, f, v, mem, prevp);
    }

    /**
     The scan of tj_malloc. It has no stopping condition of its own: one lap finds a block or asks
     for more memory, and after that a block is found within one more lap.
     */
    method Scan(s: nat) returns (mem: nat)
      requires Listed() && s > 0 && s % 4 == 0
      modifies this
      ensures Listed()
      ensures mem == NULL <==> !old(HasFit(s)) && old(availMem) < s + HEADER
      ensures mem == NULL ==> ring == old(ring) && blocks == old(blocks) && freep == old(freep)
      ensures mem != NULL ==> mem >= HEADER && mem - HEADER !in old(Live()) && Live() == old(Live())[mem - HEADER := s]
      ensures nextIndex == if old(HasFit(s)) || mem == NULL then old(nextIndex) else old(nextIndex) + s + HEADER
      ensures old(HasFit(s)) ==> var q := freep; old(FirstFit(s, mem, q))
      ensures mem != NULL && !old(HasFit(s)) ==>
        mem == old(nextIndex) + HEADER && Grown(old(blocks), old(ring), old(nextIndex), s, freep, blocks, ring)
    {
      hide Tiles, InWords, Ascending, Linked, Apart, LiveOf, Lap, FirstFit, Freed, Grown;
      var prevp: nat := freep;
      ghost var f := StartLap(next, ring, freep);
      ghost var v, grown := 0, false;
      var p: nat := next[prevp];
      while true
        invariant Listed() && Live() == old(Live()) && Scanning(s, f, v, prevp, p)
        invariant !grown ==> unchanged(this)
        invariant grown ==> HasFit(s) && !old(HasFit(s)) && old(availMem) >= s + HEADER
        invariant grown ==> nextIndex == old(nextIndex) + s + HEADER && old(nextIndex) !in old(blocks)
        invariant grown ==>
          Freed(old(blocks)[old(nextIndex) := s], old(ring), old(nextIndex), freep, blocks, ring)
        decreases !grown, |ring| - v
      {
        AtScan(s, f, v, prevp, p);
        if Fits(size[p], s) {  // DEVIATION from `p->size >= size`: a header must fit in the rest
          ghost var k := FoundAt(s, f, v, prevp, p);
          ghost var found := p + HEADER + size[p] - s;
          FoundFirst(s, f, v, prevp, p, found);
          assert !grown ==> old(FirstFit(s, found, prevp));
          if grown {
            GrownServes(old(blocks), old(ring), old(nextIndex), s, freep, blocks, ring, heap, k);
          }
          if size[p] == s {
            TakeWhole(p, prevp, k);
            return p + HEADER;
          } else {
            var p2 := TakeEnd(p, prevp, s, k);
            return p2 + HEADER;
          }
        }
        if p == freep {
          LapIsOver(s, f, v, prevp, p);
          var ok := GetMoreMem(s + HEADER);
          if !ok {
            return NULL;
          }
          grown := true;
          p := freep;
          f := StartLap(next, ring, freep);
          v := 0;
        } else {
          v := v + 1;
        }
        prevp := p;
        p := next[p];
      }
    }

    /** tj_malloc of at least one byte. */
    method Malloc(request: nat) returns (mem: nat)
      requires Valid() && request > 0
      modifies this
      ensures Valid()
      ensures mem == NULL <==>
        request > heapSize || (!old(HasFit(Round4(request))) && old(availMem) < Round4(request) + HEADER)
      ensures mem == NULL ==> Live() == old(Live()) && blocks == old(blocks)
      ensures mem == NULL && request <= heapSize ==>
        ring == Started(base, old(ring)) && freep == if old(freep) == NULL then base else old(freep)
      ensures request > heapSize ==> unchanged(this)
      ensures mem != NULL ==>
        mem >= HEADER && mem - HEADER !in old(Live()) && Live() == old(Live())[mem - HEADER := Round4(request)]
      ensures mem != NULL && old(HasFit(Round4(request))) ==>
        (var q := freep; old(FirstFit(Round4(request), mem, q))) && nextIndex == old(nextIndex)
      ensures mem != NULL && !old(HasFit(Round4(request))) ==>
        var s, up, list := Round4(request), old(nextIndex), Started(base, old(ring));
        mem == up + HEADER && nextIndex == mem + s && Grown(old(blocks), list, up, s, freep, blocks, ring)
      ensures mem != NULL ==> heap + HEADER <= mem && mem + Round4(request) <= nextIndex <= heap + heapSize
      ensures mem != NULL ==> mem % 4 == heap % 4
    {
      hide Tiles, InWords, Ascending, Linked, Apart, LiveOf, HasFit, FirstFit, Grown;
      if request > heapSize {
        return NULL;
      }
      var s := request;
      if s % 4 != 0 {
        s := s + 4 - s % 4;
      }
      assert s == Round4(request);
      hide Round4;
      if freep == NULL {
        NothingYet(s);
        InitList();
        OnlyBase(s);
      }
      mem := Scan(s);
      ListedIsValid();
      if mem != NULL {
        LiveInside(mem - HEADER);
      }
    }

    lemma NothingYet(s: nat)
      requires ring == [] && blocks == map[]
      ensures !HasFit(s) && Live() == map[]
    {
    }

    lemma OnlyBase(s: nat)
      requires blocks == map[]
      ensures !HasFit(s)
    {
    }

    lemma ListedIsValid()
      requires Listed()
      ensures Valid()
    {
    }

    lemma LiveInside(a: nat)
      requires Listed() && a in Live()
      ensures heap <= a && a + HEADER + Live()[a] <= nextIndex <= heap + heapSize
      ensures (a + HEADER) % 4 == heap % 4
    {
      hide Tiles, InWords;
      assert a in blocks;
      InTiles(blocks, a, heap, nextIndex);
      BlockAligned(blocks, a, heap, nextIndex);
    }

    /** With nothing live, all that was ever used is back in one free block: nothing is lost in pieces. */
    lemma AllFreeIsOneBlock()
      requires Valid() && Live() == map[] && nextIndex > heap
      ensures |ring| == 2 && ring[1] == heap && heap in blocks && End(blocks, heap) == nextIndex
    {
      hide Tiles;
      FirstBlock(blocks, heap, nextIndex);
      IsListed(heap);
      ApartIsCoalesced(blocks, ring, heap, nextIndex);
      if End(blocks, heap) < nextIndex {
        NextBlock(blocks, heap, heap, nextIndex);
        IsListed(End(blocks, heap));
      } else {
        InTiles(blocks, heap, heap, nextIndex);
      }
    }

    lemma IsListed(a: nat)
      requires Listed() && Live() == map[] && a in blocks
      ensures exists k :: 1 <= k < |ring| && ring[k] == a
    {
      assert a !in Live();
      var k :| 0 <= k < |ring| && ring[k] == a;
      BaseIsNoBlock(a);
    }

    /** Live and free blocks with their headers are pairwise disjoint and fill the used heap exactly. */
    lemma BlocksPartitionTheHeap()
      requires Valid()
      ensures Tiles(blocks, heap, nextIndex) && nextIndex - heap + availMem == heapSize
      ensures forall a :: a in blocks <==> a in Live() || (a in ring && a != base)
      ensures forall a, b :: a in blocks && b in blocks && a in ring && b in ring ==> End(blocks, a) != b
    {
      if freep != NULL {
        hide Tiles, InWords, Linked;
        ApartIsCoalesced(blocks, ring, heap, nextIndex);
        forall a ensures a in blocks <==> a in Live() || (a in ring && a != base) {
          if a in ring { OnRing(a); }
        }
        forall a, b | a in blocks && b in blocks && a in ring && b in ring ensures End(blocks, a) != b {
          OnRing(a);
          OnRing(b);
        }
      }
    }

    lemma OnRing(a: nat)
      requires Listed() && a in ring
      ensures a == base || (a in blocks && exists k :: 1 <= k < |ring| && ring[k] == a)
      ensures base !in blocks
    {
      hide InWords, Linked;
      var k :| 0 <= k < |ring| && ring[k] == a;
    }
  }
}
