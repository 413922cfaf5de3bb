/** The allocator of src/p5k-base/heap.c: a list of arenas obtained from a
    backing source, a hint to the arena with the most room, and the public
    operations heap_alloc, heap_free, heap_realloc and heap_calloc. The
    arenas are values (HeapBlocks.Major) held in a sequence that the
    methods reassign; the header words the allocator writes are kept in a
    map from address to tag. */
module Heap {
  import opened Base
  import opened HeapLayout
  import opened HeapBlocks

  /** A pointer handed to or returned by the allocator. */
  datatype Ptr = Null | At(addr: nat)

  /** What heap_free did: freed the block, or reported one of its errors. */
  datatype FreeOutcome = FreedBlock | NullPointer | Rejected(verdict: Check)

  /* ---- the arena list ------------------------------------------------------- */

  /** Two arenas occupy disjoint address ranges. */
  predicate Apart(a: Major, b: Major) {
    a.base + a.size <= b.base || b.base + b.size <= a.base
  }

  /** Every arena is valid and no two overlap. */
  ghost predicate ArenasValid(arenas: seq<Major>) {
    && (forall k :: 0 <= k < |arenas| ==> MajorValid(arenas[k]))
    && (forall k, l :: 0 <= k < l < |arenas| ==> Apart(arenas[k], arenas[l]))
  }

  /** The `best` hint, when set, names one of the arenas. */
  predicate BestOk(arenas: seq<Major>, best: Option<nat>) {
    best.Some? ==> best.value < |arenas|
  }

  /** In every arena only the head minor can be free (HeapBlocks.HeadOnlyFree);
      the operations keep this, but it is not needed for their safety. */
  ghost predicate Reachable(arenas: seq<Major>) {
    forall k :: 0 <= k < |arenas| ==> HeadOnlyFree(arenas[k])
  }

  /** Some minor has its header at `x`. */
  ghost predicate HeaderAt(arenas: seq<Major>, x: int) {
    exists k, j :: 0 <= k < |arenas| && 0 <= j < |arenas[k].minors| && arenas[k].minors[j].addr == x
  }

  /** Some minor has its header at `x` and requests `u` bytes. */
  ghost predicate Holds(arenas: seq<Major>, x: int, u: nat) {
    exists k, j :: 0 <= k < |arenas| && 0 <= j < |arenas[k].minors|
      && arenas[k].minors[j].addr == x && arenas[k].minors[j].used == u
  }

  /** Every block of `old_` is still there in `new_` at the same address,
      with the same request when it was in use. */
  ghost predicate KeepsBlocks(old_: seq<Major>, new_: seq<Major>) {
    forall k, j :: 0 <= k < |old_| && 0 <= j < |old_[k].minors| ==>
      && HeaderAt(new_, old_[k].minors[j].addr)
      && (old_[k].minors[j].used > 0 ==> Holds(new_, old_[k].minors[j].addr, old_[k].minors[j].used))
  }

  /** Replacing an arena by a valid one over the same block keeps the
      list valid. */
  lemma UpdateValid(arenas: seq<Major>, k: nat, a: Major)
    requires ArenasValid(arenas) && k < |arenas|
    requires MajorValid(a) && a.base == arenas[k].base && a.size == arenas[k].size
    ensures ArenasValid(arenas[k := a])
  {
    var r := arenas[k := a];
    forall k1, l | 0 <= k1 < l < |r|
      ensures Apart(r[k1], r[l])
    {
      assert Apart(arenas[k1], arenas[l]);
    }
  }

  /** Unlinking an arena keeps the list valid. */
  lemma RemoveValid(arenas: seq<Major>, k: nat)
    requires ArenasValid(arenas) && k < |arenas|
    ensures ArenasValid(Unlink(arenas, k))
  {
    var r := Unlink(arenas, k);
    forall k1, l | 0 <= k1 < l < |r|
      ensures Apart(r[k1], r[l])
    {
      var o1 := if k1 < k then k1 else k1 + 1;
      var o2 := if l < k then l else l + 1;
      assert Apart(arenas[o1], arenas[o2]);
    }
  }

  /** Appending a valid arena that overlaps none keeps the list valid. */
  lemma AppendArenaValid(arenas: seq<Major>, x: Major)
    requires ArenasValid(arenas) && MajorValid(x)
    requires forall k :: 0 <= k < |arenas| ==> Apart(arenas[k], x)
    ensures ArenasValid(arenas + [x])
  {
    var r := arenas + [x];
    forall k1, l | 0 <= k1 < l < |r|
      ensures Apart(r[k1], r[l])
    {
      if l < |arenas| {
        assert Apart(arenas[k1], arenas[l]);
      }
    }
  }

  /** Splitting a minor keeps the list valid. */
  lemma SplitArenaValid(arenas: seq<Major>, k: nat, i: nat, size: nat)
    requires ArenasValid(arenas) && k < |arenas| && i < |arenas[k].minors|
    requires MinorAvail(arenas[k].minors[i]) >= size + HEAP_ALIGN
    ensures ArenasValid(arenas[k := Split(arenas[k], i, size)])
  {
    SplitValid(arenas[k], i, size);
    UpdateValid(arenas, k, Split(arenas[k], i, size));
  }

  /** Distinct minors anywhere in the heap occupy disjoint address ranges,
      headers included; in particular no two share a header. */
  lemma BlocksDisjoint(arenas: seq<Major>, k: nat, i: nat, k2: nat, i2: nat)
    requires ArenasValid(arenas)
    requires k < |arenas| && i < |arenas[k].minors|
    requires k2 < |arenas| && i2 < |arenas[k2].minors|
    requires k != k2 || i != i2
    ensures End(arenas[k].minors[i]) <= arenas[k2].minors[i2].addr
         || End(arenas[k2].minors[i2]) <= arenas[k].minors[i].addr
  {
    var a, b := arenas[k], arenas[k2];
    if k == k2 {
      if i < i2 {
        TilesAscending(a.minors, a.base + HEAP_ALIGN, a.base + a.size, i, i2);
      } else {
        TilesAscending(a.minors, a.base + HEAP_ALIGN, a.base + a.size, i2, i);
      }
    } else {
      TilesBounds(a.minors, a.base + HEAP_ALIGN, a.base + a.size, i);
      TilesBounds(b.minors, b.base + HEAP_ALIGN, b.base + b.size, i2);
      if k < k2 {
        assert Apart(a, b);
      } else {
        assert Apart(b, a);
      }
    }
  }

  /* ---- heap_alloc ------------------------------------------------------------- */

  /** The arena the allocation starts from: `best`, or the root when the
      hint is unset. */
  function Start(arenas: seq<Major>, best: Option<nat>): nat
    requires |arenas| > 0 && BestOk(arenas, best)
  {
    if best.Some? then best.value else 0
  }

  /** Arena `a` has the room and a minor that places `size` bytes: the two
      tests heap_alloc makes before it keeps a result of heap_major_alloc. */
  predicate Takes(a: Major, size: nat) {
    MajorAvail(a) >= size && FirstFit(a.minors, size).Some?
  }

  /** The search loop of heap_alloc from arena `k` on, with `b` the best
      arena so far: the arena the request is placed in (if any), and the
      best arena once the loop stops. An arena becomes best when it has
      strictly more room than the best so far, before it is tried. */
  function Scan(arenas: seq<Major>, b: nat, size: nat, k: nat): (r: (Option<nat>, nat))
    requires b < |arenas| && k <= |arenas|
    ensures r.1 < |arenas| && MajorAvail(arenas[r.1]) >= MajorAvail(arenas[b])
    ensures r.1 == b || (k <= r.1 && (r.0.None? || r.1 <= r.0.value))
    ensures r.0.Some? ==> k <= r.0.value < |arenas| && Takes(arenas[r.0.value], size)
    ensures r.0.Some? ==> forall j :: k <= j < r.0.value ==> !Takes(arenas[j], size)
    ensures r.0.None? ==> forall j :: k <= j < |arenas| ==> !Takes(arenas[j], size)
    ensures forall j :: k <= j < |arenas| && (r.0.None? || j <= r.0.value) ==>
      MajorAvail(arenas[j]) <= MajorAvail(arenas[r.1])
    decreases |arenas| - k
  {
    if k == |arenas| then (None, b)
    else
      var b' := if MajorAvail(arenas[k]) > MajorAvail(arenas[b]) then k else b;
      if Takes(arenas[k], size) then (Some(k), b')
      else Scan(arenas, b', size, k + 1)
  }

  /** One round of the search loop: the hint is updated first, then the
      arena is tried. */
  lemma ScanStep(arenas: seq<Major>, b: nat, size: nat, k: nat)
    requires b < |arenas| && k < |arenas|
    ensures var b' := if MajorAvail(arenas[k]) > MajorAvail(arenas[b]) then k else b;
      Scan(arenas, b, size, k) == if Takes(arenas[k], size) then (Some(k), b') else Scan(arenas, b', size, k + 1)
  {
  }

  /** The arena heap_major_create and heap_minor_create make for a request
      that nothing else can place (with the corrected size). */
  function FreshArena(base: nat, size: nat): Major
    requires size + 2 * HEAP_ALIGN + HEAP_PAGE_SIZE < U64_LIMIT
  {
    WithFirstMinor(NewMajor(base, size), size)
  }

  /** The arena list, the hint and the header of the minor handed out after
      an allocation; `written` says whether that header is a new one
      (heap_minor_split or heap_minor_create wrote it) rather than the
      header of a free minor taken over as it is. */
  datatype Placement = Placement(arenas: seq<Major>, best: Option<nat>, header: nat, written: bool)

  /** The tag map after the allocation `r`: a header the allocation wrote is
      tagged live; a free minor taken over by heap_minor_resize keeps
      whatever tag its header had, since heap_minor_resize writes none. */
  function Stamped(tags: map<nat, nat>, r: Placement): map<nat, nat> {
    if r.written then tags[r.header := HEAP_MAGIC] else tags
  }

  /** Placing `size` bytes in arena `k` at its first fitting minor. */
  function PlaceIn(arenas: seq<Major>, k: nat, size: nat, best: Option<nat>): Placement
    requires k < |arenas| && FirstFit(arenas[k].minors, size).Some?
  {
    var i := FirstFit(arenas[k].minors, size).value;
    Placement(arenas[k := Placed(arenas[k], i, size)], best, PlacedHeader(arenas[k].minors[i]),
      arenas[k].minors[i].used != 0)
  }

  /** The search loop of heap_alloc and what follows it, once the hint `b`
      could not place the request: place it in the first arena that can,
      or append a fresh arena at the tail. */
  function Searched(arenas: seq<Major>, b: nat, size: nat, base: nat): Placement
    requires b < |arenas|
    requires size + 2 * HEAP_ALIGN + HEAP_PAGE_SIZE < U64_LIMIT
  {
    var s := Scan(arenas, b, size, 0);
    if s.0.Some? then PlaceIn(arenas, s.0.value, size, Some(s.1))
    else Placement(arenas + [FreshArena(base, size)], Some(s.1), base + HEAP_ALIGN, true)
  }

  /** What heap_alloc does with an aligned, non-zero `size`; `base` is the
      address the backing source returns should a new arena be needed. */
  function AllocSpec(arenas: seq<Major>, best: Option<nat>, size: nat, base: nat): Placement
    requires BestOk(arenas, best)
    requires size + 2 * HEAP_ALIGN + HEAP_PAGE_SIZE < U64_LIMIT
  {
    if arenas == [] then
      Placement([FreshArena(base, size)], Some(0), base + HEAP_ALIGN, true)
    else
      var b := Start(arenas, best);
      if Takes(arenas[b], size) then PlaceIn(arenas, b, size, Some(b))
      else Searched(arenas, b, size, base)
  }

  /** The backing source's block for a new arena overlaps no arena. */
  ghost predicate FreshBase(arenas: seq<Major>, base: nat, size: nat)
    requires size + 2 * HEAP_ALIGN + HEAP_PAGE_SIZE < U64_LIMIT
  {
    forall k :: 0 <= k < |arenas| ==> Apart(arenas[k], NewMajor(base, size))
  }

  /** Placing in one arena keeps the list valid. */
  lemma PlaceInValid(arenas: seq<Major>, k: nat, size: nat, best: Option<nat>)
    requires ArenasValid(arenas) && k < |arenas| && FirstFit(arenas[k].minors, size).Some?
    ensures ArenasValid(PlaceIn(arenas, k, size, best).arenas)
    ensures |PlaceIn(arenas, k, size, best).arenas| == |arenas|
  {
    var i := FirstFit(arenas[k].minors, size).value;
    PlacedValid(arenas[k], i, size);
    UpdateValid(arenas, k, Placed(arenas[k], i, size));
  }

  /** Placing in one arena hands out a minor holding exactly `size` bytes
      and keeps every block where it was. */
  lemma PlaceInKeeps(arenas: seq<Major>, k: nat, size: nat, best: Option<nat>)
    requires k < |arenas| && FirstFit(arenas[k].minors, size).Some?
    ensures Holds(PlaceIn(arenas, k, size, best).arenas, PlaceIn(arenas, k, size, best).header, size)
    ensures KeepsBlocks(arenas, PlaceIn(arenas, k, size, best).arenas)
  {
    var i := FirstFit(arenas[k].minors, size).value;
    var a := arenas[k];
    PlacedKeeps(a, i, size);
    var r := PlaceIn(arenas, k, size, best);
    assert r.arenas[k].minors[PlacedIndex(a, i)].addr == r.header;
    forall k1, j | 0 <= k1 < |arenas| && 0 <= j < |arenas[k1].minors|
      ensures HeaderAt(r.arenas, arenas[k1].minors[j].addr)
      ensures arenas[k1].minors[j].used > 0 ==> Holds(r.arenas, arenas[k1].minors[j].addr, arenas[k1].minors[j].used)
    {
      if k1 != k {
        assert r.arenas[k1].minors[j] == arenas[k1].minors[j];
      } else if j == i {
        assert r.arenas[k].minors[i].addr == a.minors[i].addr;
      } else {
        assert r.arenas[k].minors[Shifted(a, i, j)] == a.minors[j];
      }
    }
  }

  /** Placing a non-empty request keeps only heads free. */
  lemma PlaceInReachable(arenas: seq<Major>, k: nat, size: nat, best: Option<nat>)
    requires ArenasValid(arenas) && Reachable(arenas) && size > 0
    requires k < |arenas| && FirstFit(arenas[k].minors, size).Some?
    ensures Reachable(PlaceIn(arenas, k, size, best).arenas)
  {
    PlacedHeadOnlyFree(arenas[k], FirstFit(arenas[k].minors, size).value, size);
  }

  /** Appending a fresh arena keeps the list valid. */
  lemma AppendValid(arenas: seq<Major>, size: nat, base: nat)
    requires ArenasValid(arenas)
    requires size + 2 * HEAP_ALIGN + HEAP_PAGE_SIZE < U64_LIMIT
    requires FreshBase(arenas, base, size)
    ensures ArenasValid(arenas + [FreshArena(base, size)])
  {
    FreshArenaValid(base, size);
    AppendArenaValid(arenas, FreshArena(base, size));
  }

  /** Appending a fresh arena hands out its first minor, holding exactly
      `size` bytes, keeps every block where it was and keeps only heads
      free. */
  lemma AppendKeeps(arenas: seq<Major>, size: nat, base: nat)
    requires size + 2 * HEAP_ALIGN + HEAP_PAGE_SIZE < U64_LIMIT
    ensures Holds(arenas + [FreshArena(base, size)], base + HEAP_ALIGN, size)
    ensures KeepsBlocks(arenas, arenas + [FreshArena(base, size)])
    ensures Reachable(arenas) ==> Reachable(arenas + [FreshArena(base, size)])
  {
    var r := arenas + [FreshArena(base, size)];
    FreshHeadOnlyFree(base, size);
    assert r[|arenas|].minors[0].addr == base + HEAP_ALIGN;
    forall k1, j | 0 <= k1 < |arenas| && 0 <= j < |arenas[k1].minors|
      ensures HeaderAt(r, arenas[k1].minors[j].addr)
      ensures arenas[k1].minors[j].used > 0 ==> Holds(r, arenas[k1].minors[j].addr, arenas[k1].minors[j].used)
    {
      assert r[k1].minors[j] == arenas[k1].minors[j];
    }
  }

  /** The search keeps the arena list valid and leaves the hint set. */
  lemma SearchedValid(arenas: seq<Major>, b: nat, size: nat, base: nat)
    requires ArenasValid(arenas) && b < |arenas|
    requires size + 2 * HEAP_ALIGN + HEAP_PAGE_SIZE < U64_LIMIT
    requires FreshBase(arenas, base, size)
    ensures var r := Searched(arenas, b, size, base);
      ArenasValid(r.arenas) && BestOk(r.arenas, r.best) && r.best.Some?
  {
    var s := Scan(arenas, b, size, 0);
    if s.0.Some? {
      PlaceInValid(arenas, s.0.value, size, Some(s.1));
    } else {
      AppendValid(arenas, size, base);
    }
  }

  /** heap_alloc keeps the arena list valid and leaves the hint set. */
  lemma AllocSpecValid(arenas: seq<Major>, best: Option<nat>, size: nat, base: nat)
    requires ArenasValid(arenas) && BestOk(arenas, best)
    requires size + 2 * HEAP_ALIGN + HEAP_PAGE_SIZE < U64_LIMIT
    requires FreshBase(arenas, base, size)
    ensures var r := AllocSpec(arenas, best, size, base);
      ArenasValid(r.arenas) && BestOk(r.arenas, r.best) && r.best.Some?
  {
    if arenas == [] {
      AppendValid(arenas, size, base);
      assert [] + [FreshArena(base, size)] == [FreshArena(base, size)];
    } else {
      var b := Start(arenas, best);
      if Takes(arenas[b], size) {
        PlaceInValid(arenas, b, size, Some(b));
      } else {
        SearchedValid(arenas, b, size, base);
      }
    }
  }

  /** heap_alloc hands out a minor holding exactly `size` bytes, moves no
      block, drops no request, and keeps only heads free. */
  lemma AllocSpecKeeps(arenas: seq<Major>, best: Option<nat>, size: nat, base: nat)
    requires ArenasValid(arenas) && BestOk(arenas, best)
    requires size + 2 * HEAP_ALIGN + HEAP_PAGE_SIZE < U64_LIMIT
    ensures var r := AllocSpec(arenas, best, size, base);
      && Holds(r.arenas, r.header, size)
      && KeepsBlocks(arenas, r.arenas)
      && (Reachable(arenas) && size > 0 ==> Reachable(r.arenas))
  {
    if arenas == [] {
      AppendKeeps(arenas, size, base);
      assert [] + [FreshArena(base, size)] == [FreshArena(base, size)];
    } else {
      var b := Start(arenas, best);
      var k := b;
      var nb := Some(b);
      if !Takes(arenas[b], size) {
        var s := Scan(arenas, b, size, 0);
        if s.0.None? {
          AppendKeeps(arenas, size, base);
          return;
        }
        k, nb := s.0.value, Some(s.1);
      }
      PlaceInKeeps(arenas, k, size, nb);
      if Reachable(arenas) && size > 0 {
        PlaceInReachable(arenas, k, size, nb);
      }
    }
  }

  /** The header of any block is still a header once heap_alloc is done. */
  lemma AllocKeepsHeader(arenas: seq<Major>, best: Option<nat>, size: nat, base: nat, k: nat, j: nat)
    requires ArenasValid(arenas) && BestOk(arenas, best)
    requires size + 2 * HEAP_ALIGN + HEAP_PAGE_SIZE < U64_LIMIT
    requires k < |arenas| && j < |arenas[k].minors|
    ensures HeaderAt(AllocSpec(arenas, best, size, base).arenas, arenas[k].minors[j].addr)
  {
    AllocSpecKeeps(arenas, best, size, base);
  }

  /** Placing in arena `k` writes no header only when it takes over a free
      minor: the header handed out is then that minor's. */
  lemma PlaceInReuses(arenas: seq<Major>, k: nat, size: nat, best: Option<nat>)
    requires k < |arenas| && FirstFit(arenas[k].minors, size).Some?
    ensures var r := PlaceIn(arenas, k, size, best);
      !r.written ==> Holds(arenas, r.header, 0)
  {
    var i := FirstFit(arenas[k].minors, size).value;
    assert arenas[k].minors[i].addr == arenas[k].minors[i].addr;
  }

  /** heap_alloc leaves the tags alone only when it hands out a block that
      was already there and free; every other header it hands out is one
      it wrote. */
  lemma AllocReusesFreeHeader(arenas: seq<Major>, best: Option<nat>, size: nat, base: nat)
    requires BestOk(arenas, best)
    requires size + 2 * HEAP_ALIGN + HEAP_PAGE_SIZE < U64_LIMIT
    ensures var r := AllocSpec(arenas, best, size, base);
      !r.written ==> Holds(arenas, r.header, 0)
  {
    if arenas != [] {
      var b := Start(arenas, best);
      if Takes(arenas[b], size) {
        PlaceInReuses(arenas, b, size, Some(b));
      } else {
        var s := Scan(arenas, b, size, 0);
        if s.0.Some? {
          PlaceInReuses(arenas, s.0.value, size, Some(s.1));
        }
      }
    }
  }

  /** heap_alloc asks the backing source for a new arena exactly when no
      minor of any arena can place the request; otherwise the list keeps
      its length. */
  lemma NewArenaExactlyWhenNothingFits(arenas: seq<Major>, best: Option<nat>, size: nat, base: nat)
    requires ArenasValid(arenas) && BestOk(arenas, best)
    requires size + 2 * HEAP_ALIGN + HEAP_PAGE_SIZE < U64_LIMIT
    ensures var r := AllocSpec(arenas, best, size, base);
      && (|r.arenas| == |arenas| || |r.arenas| == |arenas| + 1)
      && (|r.arenas| == |arenas| + 1 <==> forall k :: 0 <= k < |arenas| ==> FirstFit(arenas[k].minors, size).None?)
  {
    if arenas != [] {
      var b := Start(arenas, best);
      if !Takes(arenas[b], size) {
        var s := Scan(arenas, b, size, 0);
        if s.0.None? {
          forall k | 0 <= k < |arenas|
            ensures FirstFit(arenas[k].minors, size).None?
          {
            if FirstFit(arenas[k].minors, size).Some? {
              FitImpliesAvail(arenas[k], size);
            }
          }
        }
      }
    }
  }

  /** When heap_alloc has to make a new arena, its search loop has visited
      every arena, and the hint it leaves names an old arena with the most
      room. */
  lemma NewArenaLeavesRoomiestBest(arenas: seq<Major>, best: Option<nat>, size: nat, base: nat)
    requires BestOk(arenas, best) && arenas != []
    requires size + 2 * HEAP_ALIGN + HEAP_PAGE_SIZE < U64_LIMIT
    requires |AllocSpec(arenas, best, size, base).arenas| > |arenas|
    ensures var r := AllocSpec(arenas, best, size, base);
      && r.best.Some? && r.best.value < |arenas|
      && forall k :: 0 <= k < |arenas| ==> MajorAvail(arenas[k]) <= MajorAvail(arenas[r.best.value])
  {
  }

  /* ---- heap_free ---------------------------------------------------------------- */

  /** The hint after arena `k` is unlinked: cleared when it named that arena,
      otherwise still naming the same arena. */
  function BestAfterRemoval(best: Option<nat>, k: nat): (r: Option<nat>)
    ensures best.Some? && best.value != k ==> r.Some? && r.value == if best.value > k then best.value - 1 else best.value
    ensures best == Some(k) || best.None? ==> r.None?
  {
    if best == Some(k) then None
    else if best.Some? && best.value > k then Some(best.value - 1)
    else best
  }

  /** The arena list, the hint and the headers tagged dead after a free. */
  datatype Freeing = Freeing(arenas: seq<Major>, best: Option<nat>, retired: seq<nat>)

  /** What heap_minor_free does to the heap when minor `i` of arena `k` is
      freed, with the arena released once it is idle. */
  function FreeSpec(arenas: seq<Major>, best: Option<nat>, k: nat, i: nat): Freeing
    requires k < |arenas| && i < |arenas[k].minors|
  {
    var a := Freed(arenas[k], i);
    if Release(a) then Freeing(Unlink(arenas, k), BestAfterRemoval(best, k), Retired(arenas[k], i))
    else Freeing(arenas[k := a], best, Retired(arenas[k], i))
  }

  /** Where the minor with its header at `x` sits: arena and position. */
  ghost function Locate(arenas: seq<Major>, x: int): (r: (nat, nat))
    requires HeaderAt(arenas, x)
    ensures r.0 < |arenas| && r.1 < |arenas[r.0].minors| && arenas[r.0].minors[r.1].addr == x
  {
    var k: nat, i: nat :| k < |arenas| && i < |arenas[k].minors| && arenas[k].minors[i].addr == x;
    (k, i)
  }

  /** No two minors share a header, so the header finds its minor. */
  lemma LocateUnique(arenas: seq<Major>, k: nat, i: nat)
    requires ArenasValid(arenas) && k < |arenas| && i < |arenas[k].minors|
    ensures HeaderAt(arenas, arenas[k].minors[i].addr)
    ensures Locate(arenas, arenas[k].minors[i].addr) == (k, i)
  {
    var x := arenas[k].minors[i].addr;
    var r := Locate(arenas, x);
    if r != (k, i) {
      BlocksDisjoint(arenas, k, i, r.0, r.1);
    }
  }

  /** FreeSpec for the minor whose header is at `x`. */
  ghost function FreeAt(arenas: seq<Major>, best: Option<nat>, x: int): Freeing
    requires HeaderAt(arenas, x)
  {
    var (k, i) := Locate(arenas, x);
    FreeSpec(arenas, best, k, i)
  }

  /** heap_free keeps the arena list valid and the hint in range. */
  lemma FreeSpecValid(arenas: seq<Major>, best: Option<nat>, k: nat, i: nat)
    requires ArenasValid(arenas) && BestOk(arenas, best)
    requires k < |arenas| && i < |arenas[k].minors|
    ensures ArenasValid(FreeSpec(arenas, best, k, i).arenas)
    ensures BestOk(FreeSpec(arenas, best, k, i).arenas, FreeSpec(arenas, best, k, i).best)
  {
    var a := arenas[k];
    FreedValid(a, i);
    if Release(Freed(a, i)) {
      RemoveValid(arenas, k);
    } else {
      UpdateValid(arenas, k, Freed(a, i));
    }
  }

  /** When heap_minor_free releases the arena, no other block of it was in
      use: the freed block was its last live one. */
  lemma ReleasedArenaWasIdle(a: Major, i: nat)
    requires MajorValid(a) && i < |a.minors| && Release(Freed(a, i))
    ensures forall j :: 0 <= j < |a.minors| && j != i ==> a.minors[j].used == 0
  {
    var fa := Freed(a, i);
    FreedValid(a, i);
    ReleaseExactlyWhenIdle(fa);
    forall j | 0 <= j < |a.minors| && j != i
      ensures a.minors[j].used == 0
    {
      if a.minors[j].used > 0 {
        FreedKeepsOne(a, i, j);
      }
    }
  }

  /** heap_free keeps every other block that is in use, at its address and
      with its request, and releases an arena only when none of its other
      blocks is in use. */
  lemma FreeSpecKeeps(arenas: seq<Major>, best: Option<nat>, k: nat, i: nat)
    requires ArenasValid(arenas)
    requires k < |arenas| && i < |arenas[k].minors|
    ensures var r := FreeSpec(arenas, best, k, i);
      && (forall k1, j :: (0 <= k1 < |arenas| && 0 <= j < |arenas[k1].minors| && (k1 != k || j != i)
            && arenas[k1].minors[j].used > 0) ==> Holds(r.arenas, arenas[k1].minors[j].addr, arenas[k1].minors[j].used))
      && (|r.arenas| < |arenas| ==> forall j :: 0 <= j < |arenas[k].minors| && j != i ==> arenas[k].minors[j].used == 0)
  {
    var a := arenas[k];
    var fa := Freed(a, i);
    var r := FreeSpec(arenas, best, k, i);
    if Release(fa) {
      ReleasedArenaWasIdle(a, i);
      forall k1, j | 0 <= k1 < |arenas| && 0 <= j < |arenas[k1].minors| && (k1 != k || j != i) && arenas[k1].minors[j].used > 0
        ensures Holds(r.arenas, arenas[k1].minors[j].addr, arenas[k1].minors[j].used)
      {
        var k2 := if k1 < k then k1 else k1 - 1;
        assert r.arenas[k2].minors[j] == arenas[k1].minors[j];
      }
    } else {
      forall k1, j | 0 <= k1 < |arenas| && 0 <= j < |arenas[k1].minors| && (k1 != k || j != i) && arenas[k1].minors[j].used > 0
        ensures Holds(r.arenas, arenas[k1].minors[j].addr, arenas[k1].minors[j].used)
      {
        if k1 == k {
          FreedKeepsOne(a, i, j);
          var j' :| 0 <= j' < |fa.minors| && fa.minors[j'].addr == a.minors[j].addr && fa.minors[j'].used == a.minors[j].used;
          assert r.arenas[k].minors[j'] == fa.minors[j'];
        } else {
          assert r.arenas[k1].minors[j] == arenas[k1].minors[j];
        }
      }
    }
  }

  /** heap_free keeps only heads free. */
  lemma FreeSpecReachable(arenas: seq<Major>, best: Option<nat>, k: nat, i: nat)
    requires ArenasValid(arenas) && Reachable(arenas)
    requires k < |arenas| && i < |arenas[k].minors|
    ensures Reachable(FreeSpec(arenas, best, k, i).arenas)
  {
    FreedHeadOnlyFree(arenas[k], i);
  }

  /** Writes the dead tag at every retired header. */
  function Bury(tags: map<nat, nat>, xs: seq<nat>): (r: map<nat, nat>)
    ensures forall x :: x in xs ==> x in r && r[x] == HEAP_DEAD
    ensures forall x :: x in tags && x !in xs ==> x in r && r[x] == tags[x]
    decreases |xs|
  {
    if xs == [] then tags else Bury(tags[xs[0] := HEAP_DEAD], xs[1..])
  }

  /** The headers of Retired tagged one after the other, as heap_minor_free
      writes them. */
  lemma BuryRetired(tags: map<nat, nat>, a: Major, i: nat)
    requires i < |a.minors|
    ensures var t := if i > 0 then tags[a.minors[i].addr := HEAP_DEAD] else tags;
      Bury(tags, Retired(a, i)) == if MergesNext(a, i) then t[a.minors[i + 1].addr := HEAP_DEAD] else t
  {
    var xs := Retired(a, i);
    if i > 0 && MergesNext(a, i) {
      var t1 := tags[xs[0] := HEAP_DEAD];
      assert xs[1..] == [a.minors[i + 1].addr] && xs[1..][1..] == [];
      assert Bury(tags, xs) == Bury(t1, xs[1..]);
      assert Bury(t1, xs[1..]) == Bury(t1[xs[1] := HEAP_DEAD], []);
    } else if i > 0 {
      assert xs[1..] == [];
    } else if MergesNext(a, i) {
      assert xs[1..] == [];
    }
  }

  /** A block that is not the head of its arena is tagged dead when freed,
      so freeing it again is reported as a double free; the head keeps its
      live tag and a second free of it is not detected. */
  lemma SecondFreeDetected(a: Major, i: nat, tags: map<nat, nat>)
    requires MajorValid(a) && HeadOnlyFree(a) && i < |a.minors|
    ensures i > 0 ==> Classify(Bury(tags, Retired(a, i))[a.minors[i].addr]) == DoubleFree
    ensures i == 0 ==> Bury(tags, Retired(a, i)) == tags
  {
    FreedHeadOnlyFree(a, i);
    MagicBytes();
  }

  /* ---- heap_calloc ----------------------------------------------------------------- */

  /** The byte count heap_calloc passes on as written: `num * size` on a
      64-bit `usize`, which wraps. */
  function CallocBytesAsWritten(num: nat, size: nat): nat {
    (num * size) % U64_LIMIT
  }

  /** As written, two elements of 2^63 + 32 bytes ask for a 64-byte block. */
  lemma CallocWrapsAsWritten()
    ensures CallocBytesAsWritten(2, 0x8000_0000_0000_0020) == 64
    ensures Aligned(CallocBytesAsWritten(2, 0x8000_0000_0000_0020)) < 2 * 0x8000_0000_0000_0020
  {
  }

  /** The byte count with the overflow refused: `None` when `num * size`
      does not fit a `usize`. */
  function CallocBytes(num: nat, size: nat): (r: Option<nat>)
    ensures r.Some? <==> num * size < U64_LIMIT
    ensures r.Some? ==> r.value == num * size
  {
    if num * size < U64_LIMIT then Some(num * size) else None
  }

  /** Whenever the corrected count allocates, the block has room for every
      element. */
  lemma CallocBlockHoldsAll(num: nat, size: nat)
    requires CallocBytes(num, size).Some?
    requires CallocBytes(num, size).value + HEAP_ALIGN - 1 < U64_LIMIT
    ensures Aligned(CallocBytes(num, size).value) >= num * size
  {
  }

  /** The buffer heap_calloc as written hands to mem_zero once heap_alloc
      has returned `p`: its address (0 for `NULL`) and `num * size`
      (wrapped) bytes. Nothing tests `p` first. */
  function CallocZeroedAsWritten(num: nat, size: nat, p: Ptr): (nat, nat) {
    (if p.At? then p.addr else 0, CallocBytesAsWritten(num, size))
  }

  /** As written, a product in the last 63 values below 2^64 fits a
      `usize`, but it aligns to 0, so heap_alloc returns `NULL`; heap_calloc
      then still has mem_zero clear all `num * size` bytes at address 0. */
  lemma CallocZeroesNullAsWritten(num: nat, size: nat)
    requires U64_LIMIT - HEAP_ALIGN < num * size < U64_LIMIT
    ensures CallocBytes(num, size).Some? && Aligned(CallocBytesAsWritten(num, size)) == 0
    ensures var z := CallocZeroedAsWritten(num, size, Null); z.0 == 0 && z.1 == num * size > 0
  {
  }

  /* ---- the heap object -------------------------------------------------------------- */

  /** The body of heap_minor_free up to the release test, on arena `a`:
      take the request of minor `i` off the arena, let the previous minor
      absorb it (tagging its header dead), then let whatever holds the
      freed space absorb the next minor when that one was free (tagging
      that header dead too). The outcome is `Freed`, and the headers tagged
      are the `Retired` ones. */
  method Coalesce(a: Major, i: nat, tags: map<nat, nat>) returns (r: Major, tags': map<nat, nat>)
    requires i < |a.minors|
    ensures r == Freed(a, i) && tags' == Bury(tags, Retired(a, i))
  {
    var m := a.minors[i];
    var merge := i + 1 < |a.minors| && a.minors[i + 1].used == 0;
    var next := if i + 1 < |a.minors| then a.minors[i + 1].addr else 0;
    r := a.(used := a.used - m.used, minors := a.minors[i := m.(used := 0)]);
    tags' := tags;
    var c := 0;
    if i > 0 {
      tags' := tags'[m.addr := HEAP_DEAD];
      r := Absorb(r, i - 1);
      c := i - 1;
    }
    assert r == AfterPrev(a, i);
    if merge {
      NextAfterPrev(a, i);
      tags' := tags'[next := HEAP_DEAD];
      r := Absorb(r, c);
    }
    BuryRetired(tags, a, i);
  }

  /** `heap`: `root` is the first of `arenas`, `best` the hint. The hooks to
      the backing source and the log are not fields: the address a new
      arena gets is a parameter, and log messages are not modelled. */
  class Heap {
    var arenas: seq<Major>
    var best: Option<nat>
    var tags: map<nat, nat>

    ghost predicate Valid()
      reads this
    {
      ArenasValid(arenas) && BestOk(arenas, best)
    }

    /** An empty heap: no root, no hint, nothing written. */
    constructor ()
      ensures Valid() && arenas == [] && best == None && tags == map[]
    {
      arenas := [];
      best := None;
      tags := map[];
    }

    /** heap_minor_resize on minor `i` of arena `k`. */
    method MinorResize(k: nat, i: nat, size: nat)
      requires Valid() && k < |arenas| && i < |arenas[k].minors| && size <= arenas[k].minors[i].size
      modifies this
      ensures Valid()
      ensures arenas == old(arenas)[k := Resized(old(arenas)[k], i, size)]
      ensures best == old(best) && tags == old(tags)
    {
      var a := arenas[k];
      ResizedValid(a, i, size);
      var m := a.minors[i];
      var used := a.used;
      if m.used > size {
        used := used - (m.used - size);
      } else {
        used := used + (size - m.used);
      }
      arenas := arenas[k := a.(used := used, minors := a.minors[i := m.(used := size)])];
      forall k1, l | 0 <= k1 < l < |arenas|
        ensures Apart(arenas[k1], arenas[l])
      {
        assert Apart(old(arenas)[k1], old(arenas)[l]);
      }
    }

    /** heap_minor_split on minor `i` of arena `k`: returns the new header,
      which is tagged live. */
    method MinorSplit(k: nat, i: nat, size: nat) returns (header: nat)
      requires Valid() && k < |arenas| && i < |arenas[k].minors|
      requires MinorAvail(arenas[k].minors[i]) >= size + HEAP_ALIGN
      modifies this
      ensures Valid()
      ensures arenas == old(arenas)[k := Split(old(arenas)[k], i, size)]
      ensures header == old(arenas)[k].minors[i].addr + HEAP_ALIGN + old(arenas)[k].minors[i].used
      ensures best == old(best) && tags == old(tags)[header := HEAP_MAGIC]
    {
      SplitArenaValid(arenas, k, i, size);
      var a := arenas[k];
      var m := a.minors[i];
      header := m.addr + HEAP_ALIGN + m.used;
      var rest := Minor(header, m.size - m.used - HEAP_ALIGN, size);
      a := a.(used := a.used + HEAP_ALIGN + size, minors := InsertAfter(a.minors[i := m.(size := m.used)], i, rest));
      assert a == Split(arenas[k], i, size);
      arenas := arenas[k := a];
      tags := tags[header := HEAP_MAGIC];
    }

    /** heap_major_alloc on arena `k`: walk the minors in order and place the
      request in the first that fits; the header handed out, or `None`
      with nothing changed. */
    method MajorAlloc(k: nat, size: nat) returns (header: Option<nat>)
      requires Valid() && k < |arenas|
      modifies this
      ensures Valid()
      ensures header.Some? <==> FirstFit(old(arenas)[k].minors, size).Some?
      ensures header.None? ==> arenas == old(arenas) && best == old(best) && tags == old(tags)
      ensures header.Some? ==>
        var r := PlaceIn(old(arenas), k, size, old(best));
        arenas == r.arenas && best == old(best) && header.value == r.header
        && tags == Stamped(old(tags), r)
    {
      var ms := arenas[k].minors;
      var i := 0;
      while i < |ms|
        invariant i <= |ms|
        invariant forall j :: 0 <= j < i ==> !Fits(ms[j], size)
      {
        var m := ms[i];
        if m.used == 0 && MinorAvail(m) >= size {
          MinorResize(k, i, size);
          return Some(m.addr);
        }
        if m.used != 0 && MinorAvail(m) >= size + HEAP_ALIGN {
          var h := MinorSplit(k, i, size);
          return Some(h);
        }
        i := i + 1;
      }
      return None;
    }

    /** heap_alloc. `request` is the byte count asked for; `base` is where
      the backing source puts a new arena if one is needed. A request that
      aligns to 0 (0 itself, or one so large that the alignment wraps)
      returns `Null` and changes nothing. */
    method Alloc(request: nat, base: nat) returns (p: Ptr)
      requires Valid()
      requires request < U64_LIMIT && Aligned(request) + 2 * HEAP_ALIGN + HEAP_PAGE_SIZE < U64_LIMIT
      requires FreshBase(arenas, base, Aligned(request))
      modifies this
      ensures Valid()
      ensures p == Null <==> Aligned(request) == 0
      ensures p == Null ==> arenas == old(arenas) && best == old(best) && tags == old(tags)
      ensures p.At? ==>
        var r := AllocSpec(old(arenas), old(best), Aligned(request), base);
        arenas == r.arenas && best == r.best && p.addr == r.header + HEAP_ALIGN
        && tags == Stamped(old(tags), r)
    {
      var size := Aligned(request);
      if size == 0 {
        return Null;
      }
      if arenas == [] {
        FreshArenaValid(base, size);
        var a := NewMajor(base, size);
        a := WithFirstMinor(a, size);
        arenas := [a];
        best := Some(0);
        tags := tags[a.minors[0].addr := HEAP_MAGIC];
        return At(MinorTo(a.minors[0]));
      }
      if best.None? {
        best := Some(0);
      }
      var b := best.value;
      if MajorAvail(arenas[b]) >= size {
        var found := MajorAlloc(b, size);
        if found.Some? {
          FitImpliesAvail(old(arenas)[b], size);
          return At(found.value + HEAP_ALIGN);
        }
      }
      p := Search(b, size, base);
    }

    /** What follows the fast path of heap_alloc, entered with the hint set
      to `b` after arena `b` could not place the request: the search loop,
      then a new arena at the tail when no arena can place it. */
    method Search(b: nat, size: nat, base: nat) returns (p: Ptr)
      requires Valid() && b < |arenas| && best == Some(b)
      requires size + 2 * HEAP_ALIGN + HEAP_PAGE_SIZE < U64_LIMIT
      requires FreshBase(arenas, base, size)
      modifies this
      ensures Valid()
      ensures var r := Searched(old(arenas), b, size, base);
        arenas == r.arenas && best == r.best && p == At(r.header + HEAP_ALIGN)
        && tags == Stamped(old(tags), r)
    {
      SearchedValid(arenas, b, size, base);
      var header := FindArena(b, size);
      if header.Some? {
        return At(header.value + HEAP_ALIGN);
      }
      var a := NewMajor(base, size);
      a := WithFirstMinor(a, size);
      arenas := arenas + [a];
      tags := tags[a.minors[0].addr := HEAP_MAGIC];
      p := At(MinorTo(a.minors[0]));
    }

    /** The search loop of heap_alloc: walk the arenas from the root, make
      an arena the hint when it has more room than the hint, and place the
      request in the first arena with the room and a minor that fits. */
    method FindArena(b: nat, size: nat) returns (header: Option<nat>)
      requires Valid() && b < |arenas| && best == Some(b)
      modifies this
      ensures Valid()
      ensures var s := Scan(old(arenas), b, size, 0);
        && best == Some(s.1)
        && (s.0.None? ==> header.None? && arenas == old(arenas) && tags == old(tags))
        && (s.0.Some? ==>
              var r := PlaceIn(old(arenas), s.0.value, size, Some(s.1));
              header == Some(r.header) && arenas == r.arenas && tags == Stamped(old(tags), r))
    {
      ghost var target := Scan(arenas, b, size, 0);
      var k := 0;
      while k < |arenas|
        invariant Valid() && arenas == old(arenas) && tags == old(tags) && k <= |arenas|
        invariant best.Some?
        invariant Scan(arenas, best.value, size, k) == target
      {
        ScanStep(arenas, best.value, size, k);
        header := Visit(k, size);
        if header.Some? {
          return;
        }
        k := k + 1;
      }
      header := None;
    }

    /** One round of the search loop of heap_alloc on arena `k`: make it the
      hint when it has more room than the hint, then try it when it has
      the room. */
    method Visit(k: nat, size: nat) returns (header: Option<nat>)
      requires Valid() && k < |arenas| && best.Some?
      modifies this
      ensures Valid()
      ensures var b := old(best).value;
        best == Some(if MajorAvail(old(arenas)[k]) > MajorAvail(old(arenas)[b]) then k else b)
      ensures header.Some? <==> Takes(old(arenas)[k], size)
      ensures header.None? ==> arenas == old(arenas) && tags == old(tags)
      ensures header.Some? ==>
        var r := PlaceIn(old(arenas), k, size, best);
        header == Some(r.header) && arenas == r.arenas && tags == Stamped(old(tags), r)
    {
      if MajorAvail(arenas[k]) > MajorAvail(arenas[best.value]) {
        best := Some(k);
      }
      header := None;
      if MajorAvail(arenas[k]) >= size {
        header := MajorAlloc(k, size);
      }
    }

    /** heap_major_free: unlink arena `k` (its block goes back to the
      backing source) and clear the hint if it named that arena. */
    method MajorFree(k: nat)
      requires Valid() && k < |arenas|
      modifies this
      ensures Valid()
      ensures arenas == Unlink(old(arenas), k) && best == BestAfterRemoval(old(best), k) && tags == old(tags)
    {
      ghost var arenas0 := arenas;
      arenas := arenas[..k] + arenas[k + 1..];
      best := BestAfterRemoval(best, k);
      forall k1, l | 0 <= k1 < l < |arenas|
        ensures Apart(arenas[k1], arenas[l])
      {
        var o1 := if k1 < k then k1 else k1 + 1;
        var o2 := if l < k then l else l + 1;
        assert Apart(arenas0[o1], arenas0[o2]);
      }
    }

    /** heap_minor_free on minor `i` of arena `k`: take its request off the
      arena, let the previous minor absorb it, let the holder absorb the
      next minor when that one is free, and release the arena when it is
      idle. The release test here is the corrected one
      (HeapBlocks.Release); heap.c compares with one header only
      (HeapBlocks.ReleaseAsWritten). */
    method MinorFree(k: nat, i: nat)
      requires Valid() && k < |arenas| && i < |arenas[k].minors|
      modifies this
      ensures Valid()
      ensures var r := FreeSpec(old(arenas), old(best), k, i);
        arenas == r.arenas && best == r.best && tags == Bury(old(tags), r.retired)
    {
      FreedValid(arenas[k], i);
      var a;
      a, tags := Coalesce(arenas[k], i, tags);
      UpdateValid(arenas, k, a);
      arenas := arenas[k := a];
      if Release(a) {
        assert Unlink(arenas, k) == Unlink(old(arenas), k);
        MajorFree(k);
      }
    }

    /** heap_free. `word` is the tag heap_node_check reads at the header in
      front of `ptr`. A `Null` pointer is reported, a header whose tag is
      not the live one is reported with heap_node_check's verdict, and in
      both cases nothing changes; otherwise the block is freed. A live tag
      is trusted: the block must be one the heap handed out. */
    method Free(ptr: Ptr, word: nat) returns (outcome: FreeOutcome)
      requires Valid()
      requires ptr.At? && word == HEAP_MAGIC ==> HeaderAt(arenas, MinorFrom(ptr.addr))
      modifies this
      ensures Valid()
      ensures ptr == Null ==> outcome == NullPointer
      ensures ptr.At? ==> outcome == if word == HEAP_MAGIC then FreedBlock else Rejected(Classify(word))
      ensures outcome != FreedBlock ==> arenas == old(arenas) && best == old(best) && tags == old(tags)
      ensures outcome == FreedBlock ==>
        var r := FreeAt(old(arenas), old(best), MinorFrom(ptr.addr));
        arenas == r.arenas && best == r.best && tags == Bury(old(tags), r.retired)
    {
      if ptr == Null {
        return NullPointer;
      }
      var header := MinorFrom(ptr.addr);
      var verdict := NodeCheck(word);
      if verdict != Live {
        return Rejected(verdict);
      }
      var k: nat, i: nat :| k < |arenas| && i < |arenas[k].minors| && arenas[k].minors[i].addr == header;
      LocateUnique(arenas, k, i);
      MinorFree(k, i);
      outcome := FreedBlock;
    }

    /** heap_realloc. `word` is the tag read at the header in front of
      `ptr`. The request is aligned first. A `Null` pointer is an
      allocation; a request that aligns to 0 frees the block and returns
      `Null`; a header whose tag is not the live one returns `Null` and
      changes nothing; a block with the capacity is resized in place;
      otherwise a new block is allocated, the old block's whole capacity
      (`copied` bytes) is copied into it, and the old block is freed.
      `copied` is 0 when nothing is copied. */
    method Realloc(ptr: Ptr, request: nat, word: nat, base: nat) returns (p: Ptr, copied: nat)
      requires Valid()
      requires request < U64_LIMIT && Aligned(request) + 2 * HEAP_ALIGN + HEAP_PAGE_SIZE < U64_LIMIT
      requires FreshBase(arenas, base, Aligned(request))
      requires ptr.At? && word == HEAP_MAGIC ==> HeaderAt(arenas, MinorFrom(ptr.addr))
      modifies this
      ensures Valid()
      ensures ptr == Null ==> copied == 0 && (p == Null <==> Aligned(request) == 0)
      ensures ptr == Null && p.At? ==>
        var r := AllocSpec(old(arenas), old(best), Aligned(request), base);
        arenas == r.arenas && best == r.best && p.addr == r.header + HEAP_ALIGN
        && tags == Stamped(old(tags), r)
      ensures ptr.At? && (Aligned(request) == 0 || word != HEAP_MAGIC) ==> p == Null && copied == 0
      ensures ptr.At? && word != HEAP_MAGIC ==> arenas == old(arenas) && best == old(best) && tags == old(tags)
      ensures ptr.At? && Aligned(request) == 0 && word == HEAP_MAGIC ==>
        var r := FreeAt(old(arenas), old(best), MinorFrom(ptr.addr));
        arenas == r.arenas && best == r.best && tags == Bury(old(tags), r.retired)
      ensures ptr.At? && Aligned(request) > 0 && word == HEAP_MAGIC ==>
        var (k, i) := Locate(old(arenas), MinorFrom(ptr.addr));
        var m := old(arenas)[k].minors[i];
        if m.size >= Aligned(request) then
          && p == ptr && copied == 0
          && arenas == old(arenas)[k := Resized(old(arenas)[k], i, Aligned(request))]
          && best == old(best) && tags == old(tags)
        else
          var r := AllocSpec(old(arenas), old(best), Aligned(request), base);
          && p == At(r.header + HEAP_ALIGN) && copied == m.size < Aligned(request)
          && HeaderAt(r.arenas, m.addr)
          && var f := FreeAt(r.arenas, r.best, m.addr);
             arenas == f.arenas && best == f.best && tags == Bury(Stamped(old(tags), r), f.retired)
    {
      var size := Aligned(request);
      RoundingIdempotent(request);
      if ptr == Null {
        p := Alloc(size, base);
        return p, 0;
      }
      if size == 0 {
        var _ := Free(ptr, word);
        return Null, 0;
      }
      var header := MinorFrom(ptr.addr);
      var verdict := NodeCheck(word);
      if verdict != Live {
        return Null, 0;
      }
      var k: nat, i: nat :| k < |arenas| && i < |arenas[k].minors| && arenas[k].minors[i].addr == header;
      LocateUnique(arenas, k, i);
      var m := arenas[k].minors[i];
      if m.size >= size {
        MinorResize(k, i, size);
        return ptr, 0;
      }
      p := Move(ptr, k, i, size, base);
      copied := m.size;
    }

    /** The moving branch of heap_realloc for the block at minor `i` of
      arena `k`: allocate `size` bytes, then free the old block, which the
      allocation leaves where it was. */
    method Move(ptr: Ptr, k: nat, i: nat, size: nat, base: nat) returns (p: Ptr)
      requires Valid() && k < |arenas| && i < |arenas[k].minors|
      requires ptr.At? && MinorFrom(ptr.addr) == arenas[k].minors[i].addr
      requires 0 < size < U64_LIMIT && Aligned(size) == size
      requires size + 2 * HEAP_ALIGN + HEAP_PAGE_SIZE < U64_LIMIT
      requires FreshBase(arenas, base, size)
      modifies this
      ensures Valid()
      ensures var x := old(arenas)[k].minors[i].addr;
        var r := AllocSpec(old(arenas), old(best), size, base);
        && p == At(r.header + HEAP_ALIGN)
        && HeaderAt(r.arenas, x)
        && var f := FreeAt(r.arenas, r.best, x);
           arenas == f.arenas && best == f.best
           && tags == Bury(Stamped(old(tags), r), f.retired)
    {
      ghost var x := arenas[k].minors[i].addr;
      AllocKeepsHeader(arenas, best, size, base, k, i);
      p := Alloc(size, base);
      var _ := Free(ptr, HEAP_MAGIC);
    }

    /** heap_calloc with the element count checked: `num * size` bytes when
      that fits a `usize`, and `Null` with nothing changed when it does
      not. A count so close to 2^64 that its alignment wraps to 0 gets
      `Null` from heap_alloc, and then nothing is zeroed either (heap.c
      zeroes through the null pointer, CallocZeroesNullAsWritten). The
      block, when there is one, is zeroed (`zeroed` is the byte count
      mem_zero clears) and holds all `num * size` bytes. */
    method Calloc(num: nat, size: nat, base: nat) returns (p: Ptr, zeroed: nat)
      requires Valid() && num < U64_LIMIT && size < U64_LIMIT
      requires CallocBytes(num, size).Some? ==>
        && Aligned(num * size) + 2 * HEAP_ALIGN + HEAP_PAGE_SIZE < U64_LIMIT
        && FreshBase(arenas, base, Aligned(num * size))
      modifies this
      ensures Valid()
      ensures p == Null <==> num * size >= U64_LIMIT || Aligned(num * size) == 0
      ensures p == Null ==> zeroed == 0 && arenas == old(arenas) && best == old(best) && tags == old(tags)
      ensures p.At? ==>
        var r := AllocSpec(old(arenas), old(best), Aligned(num * size), base);
        && arenas == r.arenas && best == r.best && p.addr == r.header + HEAP_ALIGN
        && tags == Stamped(old(tags), r)
        && zeroed == num * size
        && Holds(arenas, r.header, Aligned(num * size)) && Aligned(num * size) >= num * size
    {
      var bytes := CallocBytes(num, size);
      if bytes.None? {
        return Null, 0;
      }
      AllocSpecKeeps(arenas, best, Aligned(bytes.value), base);
      if bytes.value + HEAP_ALIGN - 1 < U64_LIMIT {
        CallocBlockHoldsAll(num, size);
      }
      p := Alloc(bytes.value, base);
      zeroed := if p.At? then bytes.value else 0;
    }
  }
}
