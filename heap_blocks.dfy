/** The headers of src/p5k-base/heap.c as values: the tag check, the
    arena ("major") and block ("minor") records, the list surgery of
    heap_node_append/heap_node_remove, and what each minor operation does to
    one arena, with the accounting and layout invariants those operations
    keep. Addresses are plain numbers: a block's header sits at `addr` and
    its payload 64 bytes further on. */
module HeapBlocks {
  import opened Base
  import opened HeapLayout

  /* ---- heap_node_check -------------------------------------------------- */

  /** The verdict heap_node_check reaches on a header tag; only `Live`
      lets the caller go on (the others are the three error messages). */
  datatype Check = Live | DoubleFree | Corruption | Overflow

  /** How many of the first `n` tag bytes differ from 0xc0 (the counter
      `overflow` of heap_node_check after `n` rounds). */
  function Differing(w: nat, n: nat): (r: nat)
    ensures r <= n
    ensures r == n <==> forall j :: 0 <= j < n ==> TagByte(w, j) != MAGIC_BYTE
  {
    if n == 0 then 0
    else Differing(w, n - 1) + (if TagByte(w, n - 1) != MAGIC_BYTE then 1 else 0)
  }

  /** What heap_node_check decides about tag `w`: the live tag passes, the
      dead tag is a double free, and any other tag is corruption when all
      eight bytes differ from 0xc0 and an overflow when some still match. */
  function Classify(w: nat): (c: Check)
    ensures c == Live <==> w == HEAP_MAGIC
    ensures c == DoubleFree <==> w == HEAP_DEAD
    ensures c == Corruption <==>
      w != HEAP_MAGIC && w != HEAP_DEAD && forall j :: 0 <= j < 8 ==> TagByte(w, j) != MAGIC_BYTE
    ensures c == Overflow <==>
      w != HEAP_MAGIC && w != HEAP_DEAD && exists j :: 0 <= j < 8 && TagByte(w, j) == MAGIC_BYTE
  {
    if w == HEAP_MAGIC then Live
    else if w == HEAP_DEAD then DoubleFree
    else if Differing(w, 8) == 8 then Corruption
    else Overflow
  }

  /** heap_node_check: compare with the two tags, otherwise count the bytes
      that differ from 0xc0. `verdict == Live` is its `true`. */
  method NodeCheck(w: nat) returns (verdict: Check)
    ensures verdict == Classify(w)
  {
    if w == HEAP_MAGIC {
      return Live;
    }
    if w == HEAP_DEAD {
      return DoubleFree;
    }
    var overflow := 0;
    for i := 0 to 8
      invariant overflow == Differing(w, i)
    {
      if TagByte(w, i) != MAGIC_BYTE {
        overflow := overflow + 1;
      }
    }
    if overflow == 8 {
      verdict := Corruption;
    } else {
      verdict := Overflow;
    }
  }

  /* ---- records ----------------------------------------------------------- */

  /** `heap_minor`: header address, reserved capacity `size`, requested
      bytes `used` (0 marks a free block). The tag, the owner pointer and
      the links are represented by the block's place in its arena. */
  datatype Minor = Minor(addr: nat, size: nat, used: nat)

  /** `heap_major`: the arena's base address, its total `size`, the bytes
      `used` by headers and requests, and its minors in list order. */
  datatype Major = Major(base: nat, size: nat, used: int, minors: seq<Minor>)

  /** heap_minor_avail: capacity not yet requested. Written as a difference
      of integers; the invariants keep it non-negative, so the `usize`
      subtraction never wraps. */
  function MinorAvail(m: Minor): int {
    m.size - m.used
  }

  /** heap_major_avail: arena bytes not yet counted as used. */
  function MajorAvail(a: Major): int {
    a.size - a.used
  }

  /** heap_minor_to: the payload starts one header past the block. */
  function MinorTo(m: Minor): nat {
    m.addr + HEAP_ALIGN
  }

  /** heap_minor_from: the header sits one header before the payload. */
  function MinorFrom(ptr: nat): int {
    ptr - HEAP_ALIGN
  }

  /** The two conversions are inverse to each other. */
  lemma MinorToFrom(m: Minor, ptr: nat)
    ensures MinorFrom(MinorTo(m)) == m.addr
    ensures ptr >= HEAP_ALIGN ==> MinorTo(Minor(MinorFrom(ptr), m.size, m.used)) == ptr
  {
  }

  /** The first address past a block's capacity. */
  function End(m: Minor): nat {
    m.addr + HEAP_ALIGN + m.size
  }

  /* ---- heap_node_append / heap_node_remove -------------------------------- */

  /** heap_node_append: link `x` right after position `i`. */
  function InsertAfter<T>(s: seq<T>, i: nat, x: T): (r: seq<T>)
    requires i < |s|
    ensures |r| == |s| + 1 && r[i + 1] == x
    ensures forall j :: 0 <= j <= i ==> r[j] == s[j]
    ensures forall j :: i + 1 < j < |r| ==> r[j] == s[j - 1]
  {
    s[..i + 1] + [x] + s[i + 1..]
  }

  /** heap_node_remove: unlink position `i`; its neighbours become
      adjacent. */
  function Unlink<T>(s: seq<T>, i: nat): (r: seq<T>)
    requires i < |s|
    ensures |r| == |s| - 1
    ensures forall j :: 0 <= j < i ==> r[j] == s[j]
    ensures forall j :: i <= j < |r| ==> r[j] == s[j + 1]
  {
    s[..i] + s[i + 1..]
  }

  /* ---- accounting -------------------------------------------------------- */

  /** Σ (64 + used) over the minors: what they add to the arena's `used`. */
  function Charge(ms: seq<Minor>): nat {
    if ms == [] then 0 else HEAP_ALIGN + ms[0].used + Charge(ms[1..])
  }

  /** Σ (64 + size) over the minors: the room they tile. */
  function Span(ms: seq<Minor>): nat {
    if ms == [] then 0 else HEAP_ALIGN + ms[0].size + Span(ms[1..])
  }

  /** Σ (size − used): the slack of every minor together. */
  function Slack(ms: seq<Minor>): nat
    requires forall j :: 0 <= j < |ms| ==> ms[j].used <= ms[j].size
  {
    if ms == [] then 0 else ms[0].size - ms[0].used + Slack(ms[1..])
  }

  lemma {:induction false} ChargeConcat(a: seq<Minor>, b: seq<Minor>)
    ensures Charge(a + b) == Charge(a) + Charge(b)
  {
    if a != [] {
      assert (a + b)[0] == a[0] && (a + b)[1..] == a[1..] + b;
      ChargeConcat(a[1..], b);
    } else {
      assert a + b == b;
    }
  }

  /** A single minor is charged its header and its request. */
  lemma ChargeSingle(m: Minor)
    ensures Charge([m]) == HEAP_ALIGN + m.used
  {
    assert [m][1..] == [];
  }

  /** Replacing one minor changes the charge by the difference in `used`. */
  lemma ChargeUpdate(s: seq<Minor>, i: nat, x: Minor)
    requires i < |s|
    ensures Charge(s[i := x]) + s[i].used == Charge(s) + x.used
  {
    var lo, hi := s[..i], s[i + 1..];
    assert s == lo + [s[i]] + hi;
    assert s[i := x] == lo + [x] + hi;
    ChargeConcat(lo + [s[i]], hi);
    ChargeConcat(lo, [s[i]]);
    ChargeConcat(lo + [x], hi);
    ChargeConcat(lo, [x]);
    ChargeSingle(s[i]);
    ChargeSingle(x);
  }

  /** Linking a minor adds its header and its request to the charge. */
  lemma ChargeInsert(s: seq<Minor>, i: nat, x: Minor)
    requires i < |s|
    ensures Charge(InsertAfter(s, i, x)) == Charge(s) + HEAP_ALIGN + x.used
  {
    var lo, hi := s[..i + 1], s[i + 1..];
    assert s == lo + hi;
    assert InsertAfter(s, i, x) == lo + [x] + hi;
    ChargeConcat(lo, hi);
    ChargeConcat(lo + [x], hi);
    ChargeConcat(lo, [x]);
    ChargeSingle(x);
  }

  /** Unlinking a minor takes its header and its request off the charge. */
  lemma ChargeUnlink(s: seq<Minor>, i: nat)
    requires i < |s|
    ensures Charge(Unlink(s, i)) + HEAP_ALIGN + s[i].used == Charge(s)
  {
    var lo, hi := s[..i], s[i + 1..];
    assert Unlink(s, i) == lo + hi;
    ChargeConcat(lo, hi);
    ChargeConcat(lo, [s[i]]);
    ChargeConcat(lo + [s[i]], hi);
    ChargeSingle(s[i]);
    assert s == lo + [s[i]] + hi;
  }


  /** A minor's share of the charge is part of the whole. */
  lemma ChargeCovers(s: seq<Minor>, i: nat)
    requires i < |s|
    ensures HEAP_ALIGN + s[i].used <= Charge(s)
  {
    ChargeUnlink(s, i);
  }

  /* ---- the arena invariant ----------------------------------------------- */

  /** The minors tile [from, to): the first header is at `from`, each next
      header starts where the previous capacity ends, and the last capacity
      ends at `to`. This is what the `prev`/`next` links and the header
      arithmetic of heap_minor_create and heap_minor_split lay out. */
  ghost predicate Tiles(ms: seq<Minor>, from: nat, to: nat) {
    && |ms| > 0
    && ms[0].addr == from
    && (forall j :: 0 <= j < |ms| - 1 ==> ms[j + 1].addr == End(ms[j]))
    && End(ms[|ms| - 1]) == to
  }

  /** An arena between two calls of the allocator: page-sized, tiled by at
      least one minor (the head is never unlinked), no minor requesting more
      than it reserves, and `used` = 64 + Σ (64 + used). */
  ghost predicate MajorValid(a: Major) {
    && a.size % HEAP_PAGE_SIZE == 0
    && Tiles(a.minors, a.base + HEAP_ALIGN, a.base + a.size)
    && (forall j :: 0 <= j < |a.minors| ==> a.minors[j].used <= a.minors[j].size)
    && a.used == HEAP_ALIGN + Charge(a.minors)
  }

  /** The second accounting invariant follows from the layout:
      Σ (64 + size) = arena size − 64. */
  lemma {:induction false} TilesSpan(ms: seq<Minor>, from: nat, to: nat)
    requires Tiles(ms, from, to)
    ensures from + Span(ms) == to
  {
    if |ms| > 1 {
      assert Tiles(ms[1..], End(ms[0]), to) by {
        forall j | 0 <= j < |ms[1..]| - 1
          ensures ms[1..][j + 1].addr == End(ms[1..][j])
        {
          assert ms[1..][j + 1] == ms[j + 2] && ms[1..][j] == ms[j + 1];
        }
      }
      TilesSpan(ms[1..], End(ms[0]), to);
    }
  }

  /** Span exceeds charge by exactly the slack. */
  lemma {:induction false} SpanChargeSlack(ms: seq<Minor>)
    requires forall j :: 0 <= j < |ms| ==> ms[j].used <= ms[j].size
    ensures Span(ms) == Charge(ms) + Slack(ms)
  {
    if ms != [] {
      SpanChargeSlack(ms[1..]);
    }
  }

  /** One minor's slack is part of the arena's. */
  lemma {:induction false} SlackCovers(ms: seq<Minor>, i: nat)
    requires forall j :: 0 <= j < |ms| ==> ms[j].used <= ms[j].size
    requires i < |ms|
    ensures ms[i].size - ms[i].used <= Slack(ms)
  {
    if i > 0 {
      SlackCovers(ms[1..], i - 1);
    }
  }

  /** In a valid arena `used` never exceeds `size`: what the arena has
      available is exactly the slack of its minors. */
  lemma MajorAccounting(a: Major)
    requires MajorValid(a)
    ensures MajorAvail(a) == Slack(a.minors) >= 0
  {
    TilesSpan(a.minors, a.base + HEAP_ALIGN, a.base + a.size);
    SpanChargeSlack(a.minors);
  }

  /** Headers inside one arena come in increasing address order: a later
      block starts at or after the end of an earlier one. */
  lemma {:induction false} TilesAscending(ms: seq<Minor>, from: nat, to: nat, i: nat, j: nat)
    requires Tiles(ms, from, to)
    requires i < j < |ms|
    ensures End(ms[i]) <= ms[j].addr
    decreases j - i
  {
    if j > i + 1 {
      TilesAscending(ms, from, to, i, j - 1);
    }
  }

  /** Every block lies inside the region the minors tile. */
  lemma TilesBounds(ms: seq<Minor>, from: nat, to: nat, i: nat)
    requires Tiles(ms, from, to)
    requires i < |ms|
    ensures from <= ms[i].addr && End(ms[i]) <= to
  {
    if i > 0 {
      TilesAscending(ms, from, to, 0, i);
    }
    if i < |ms| - 1 {
      TilesAscending(ms, from, to, i, |ms| - 1);
    }
  }

  /* ---- heap_major_create / heap_minor_create ------------------------------ */

  /** The size heap_major_create asks of the backing source as written:
      the request plus ONE header, at least 16 KiB, rounded to pages. */
  function MajorSizeAsWritten(request: nat): nat
    requires request + HEAP_ALIGN < U64_LIMIT
  {
    var s := request + HEAP_ALIGN;
    var s' := if s < HEAP_MIN_REQU then HEAP_MIN_REQU else s;
    PageAligned(s')
  }

  /** As written, heap_minor_create can hand out a first block whose
      capacity is smaller than its request: 16320 bytes make a 16384-byte
      arena whose first block reserves only 16256, so the request runs 64
      bytes past the arena. */
  lemma FirstBlockOverrunsAsWritten()
    ensures MajorSizeAsWritten(16320) == 16384
    ensures MajorSizeAsWritten(16320) - 2 * HEAP_ALIGN < 16320
  {
  }

  /** The arena size with room for both the arena header and the first
      block's header: the request plus TWO headers, at least 16 KiB,
      rounded to pages. */
  function MajorSize(request: nat): (r: nat)
    requires request + 2 * HEAP_ALIGN + HEAP_PAGE_SIZE < U64_LIMIT
    ensures r % HEAP_PAGE_SIZE == 0 && r >= HEAP_MIN_REQU
    ensures r >= request + 2 * HEAP_ALIGN
    ensures r < request + 2 * HEAP_ALIGN + HEAP_PAGE_SIZE || r == HEAP_MIN_REQU
  {
    var s := request + 2 * HEAP_ALIGN;
    var s' := if s < HEAP_MIN_REQU then HEAP_MIN_REQU else s;
    PageAligned(s')
  }

  /** heap_major_create (with the corrected size): a fresh arena at `base`
      whose `used` counts only its own header, with no minors yet. */
  function NewMajor(base: nat, request: nat): (a: Major)
    requires request + 2 * HEAP_ALIGN + HEAP_PAGE_SIZE < U64_LIMIT
    ensures a.base == base && a.size == MajorSize(request) && a.used == HEAP_ALIGN
    ensures a.minors == []
  {
    Major(base, MajorSize(request), HEAP_ALIGN, [])
  }

  /** heap_minor_create: the first minor sits right after the arena header
      and reserves everything the arena has left past its own header. */
  function WithFirstMinor(a: Major, size: nat): Major
    requires a.used + HEAP_ALIGN <= a.size
  {
    var m := Minor(a.base + HEAP_ALIGN, a.size - a.used - HEAP_ALIGN, size);
    a.(used := a.used + size + HEAP_ALIGN, minors := [m])
  }

  /** A fresh arena with its first minor is valid, the minor holds exactly
      the request, and its payload starts two headers past the base. */
  lemma FreshArenaValid(base: nat, request: nat)
    requires request + 2 * HEAP_ALIGN + HEAP_PAGE_SIZE < U64_LIMIT
    ensures var a := WithFirstMinor(NewMajor(base, request), request);
      && MajorValid(a)
      && a.used == 2 * HEAP_ALIGN + request
      && a.minors[0].used == request
      && MinorTo(a.minors[0]) == base + 2 * HEAP_ALIGN
  {
    var a := WithFirstMinor(NewMajor(base, request), request);
    assert Charge(a.minors) == HEAP_ALIGN + request by {
      assert a.minors[1..] == [];
    }
  }

  /* ---- heap_major_alloc: first fit ----------------------------------------- */

  /** The test heap_major_alloc makes of each minor: a free one must have
      `size` bytes available, a used one `size` plus a header. */
  predicate Fits(m: Minor, size: nat) {
    if m.used == 0 then MinorAvail(m) >= size else MinorAvail(m) >= size + HEAP_ALIGN
  }

  /** The first minor, in list order, that passes the test. */
  function FirstFit(ms: seq<Minor>, size: nat): (r: Option<nat>)
    ensures r.Some? ==> r.value < |ms| && Fits(ms[r.value], size)
    ensures r.Some? ==> forall j :: 0 <= j < r.value ==> !Fits(ms[j], size)
    ensures r.None? ==> forall j :: 0 <= j < |ms| ==> !Fits(ms[j], size)
  {
    if ms == [] then None
    else if Fits(ms[0], size) then Some(0)
    else match FirstFit(ms[1..], size)
      case None => None
      case Some(i) => Some(i + 1)
  }

  /** A minor that fits means the arena has at least that much available:
      the `heap_major_avail(maj) >= size` filter of heap_alloc never skips
      an arena that could place the request. */
  lemma FitImpliesAvail(a: Major, size: nat)
    requires MajorValid(a)
    requires FirstFit(a.minors, size).Some?
    ensures MajorAvail(a) >= size
  {
    MajorAccounting(a);
    SlackCovers(a.minors, FirstFit(a.minors, size).value);
  }

  /** heap_minor_resize: the minor's request becomes `size` and the arena's
      `used` moves by the same amount. */
  function Resized(a: Major, i: nat, size: nat): Major
    requires i < |a.minors|
  {
    var m := a.minors[i];
    var used := if m.used > size then a.used - (m.used - size) else a.used + (size - m.used);
    a.(used := used, minors := a.minors[i := m.(used := size)])
  }

  /** heap_minor_split: the old minor keeps only what it uses, and a new
      minor requesting `size` bytes is written right after its request and
      linked after it, taking the rest of the old capacity. */
  function Split(a: Major, i: nat, size: nat): Major
    requires i < |a.minors|
    requires MinorAvail(a.minors[i]) >= size + HEAP_ALIGN
  {
    var m := a.minors[i];
    var rest := Minor(m.addr + HEAP_ALIGN + m.used, m.size - m.used - HEAP_ALIGN, size);
    a.(used := a.used + HEAP_ALIGN + size, minors := InsertAfter(a.minors[i := m.(size := m.used)], i, rest))
  }

  /** Where heap_major_alloc puts a request in the minor it found: a free
      minor is reused in place, a used one is split. */
  function Placed(a: Major, i: nat, size: nat): Major
    requires i < |a.minors|
    requires Fits(a.minors[i], size)
  {
    if a.minors[i].used == 0 then Resized(a, i, size) else Split(a, i, size)
  }

  /** The header of the minor that placement hands out: the minor itself
      when it is reused, the header written after its request when split. */
  function PlacedHeader(m: Minor): nat {
    if m.used == 0 then m.addr else m.addr + HEAP_ALIGN + m.used
  }

  /** Resizing within capacity keeps the arena valid, changes `used` by
      exactly the difference, and touches no other minor. */
  lemma ResizedValid(a: Major, i: nat, size: nat)
    requires MajorValid(a) && i < |a.minors| && size <= a.minors[i].size
    ensures var r := Resized(a, i, size);
      && MajorValid(r)
      && r.used + a.minors[i].used == a.used + size
      && r.base == a.base && r.size == a.size
      && |r.minors| == |a.minors| && r.minors[i] == a.minors[i].(used := size)
      && (forall j :: 0 <= j < |a.minors| && j != i ==> r.minors[j] == a.minors[j])
  {
    ChargeCovers(a.minors, i);
    var m := a.minors[i];
    ChargeUpdate(a.minors, i, m.(used := size));
  }

  /** Splitting keeps the arena valid: `used` grows by one header plus the
      request, Σ (64 + size) is unchanged (the layout still tiles the same
      region), the new minor follows the old one and requests `size`, and
      every other minor keeps its address and request. */
  lemma SplitValid(a: Major, i: nat, size: nat)
    requires MajorValid(a) && i < |a.minors|
    requires MinorAvail(a.minors[i]) >= size + HEAP_ALIGN
    ensures var r := Split(a, i, size);
      && MajorValid(r)
      && r.used == a.used + HEAP_ALIGN + size
      && Span(r.minors) == Span(a.minors)
      && r.base == a.base && r.size == a.size
      && |r.minors| == |a.minors| + 1
      && r.minors[i + 1].used == size
      && r.minors[i + 1].addr == a.minors[i].addr + HEAP_ALIGN + a.minors[i].used
      && r.minors[i] == a.minors[i].(size := a.minors[i].used)
      && (forall j :: 0 <= j < i ==> r.minors[j] == a.minors[j])
      && (forall j :: i < j < |a.minors| ==> r.minors[j + 1] == a.minors[j])
  {
    var m := a.minors[i];
    var rest := Minor(m.addr + HEAP_ALIGN + m.used, m.size - m.used - HEAP_ALIGN, size);
    var s1 := a.minors[i := m.(size := m.used)];
    var r := Split(a, i, size);
    assert r.minors == InsertAfter(s1, i, rest);
    ChargeUpdate(a.minors, i, m.(size := m.used));
    ChargeInsert(s1, i, rest);
    SplitTiles(a.minors, i, rest, r.minors, a.base + HEAP_ALIGN, a.base + a.size);
    TilesSpan(a.minors, a.base + HEAP_ALIGN, a.base + a.size);
    TilesSpan(r.minors, a.base + HEAP_ALIGN, a.base + a.size);
  }

  /** The layout half of SplitValid: cutting a minor after its request and
      linking the remainder after it tiles the same region. */
  lemma SplitTiles(ms: seq<Minor>, i: nat, rest: Minor, r: seq<Minor>, from: nat, to: nat)
    requires Tiles(ms, from, to) && i < |ms|
    requires rest.addr == ms[i].addr + HEAP_ALIGN + ms[i].used && End(rest) == End(ms[i])
    requires r == InsertAfter(ms[i := ms[i].(size := ms[i].used)], i, rest)
    requires forall j :: 0 <= j < |ms| ==> ms[j].used <= ms[j].size
    requires rest.used <= rest.size
    ensures Tiles(r, from, to)
    ensures forall j :: 0 <= j < |r| ==> r[j].used <= r[j].size
  {
    forall j | 0 <= j < |r|
      ensures r[j].used <= r[j].size
    {
      if j < i {
        assert r[j] == ms[j];
      } else if j > i + 1 {
        assert r[j] == ms[j - 1];
      }
    }
    forall j | 0 <= j < |r| - 1
      ensures r[j + 1].addr == End(r[j])
    {
      if j < i {
        assert r[j + 1] == ms[j + 1] || j + 1 == i;
      } else if j == i + 1 {
        assert r[j] == rest && r[j + 1] == ms[i + 1];
      } else if j > i + 1 {
        assert r[j + 1] == ms[j] && r[j] == ms[j - 1];
      }
    }
    if i + 1 == |ms| {
      assert r[|r| - 1] == rest;
    } else {
      assert r[|r| - 1] == ms[|ms| - 1];
    }
  }

  /** Placing a request keeps the arena valid over the same block, and
      `used` grows by the request, plus a header when a minor is split. */
  lemma PlacedValid(a: Major, i: nat, size: nat)
    requires MajorValid(a) && i < |a.minors| && Fits(a.minors[i], size)
    ensures var r := Placed(a, i, size);
      && MajorValid(r)
      && r.base == a.base && r.size == a.size
      && r.used == a.used + size + (if a.minors[i].used == 0 then 0 else HEAP_ALIGN)
  {
    if a.minors[i].used == 0 {
      ResizedValid(a, i, size);
    } else {
      SplitValid(a, i, size);
    }
  }

  /** The position of the minor placement hands out: the minor itself, or
      the one linked after it. */
  function PlacedIndex(a: Major, i: nat): nat
    requires i < |a.minors|
  {
    if a.minors[i].used == 0 then i else i + 1
  }

  /** Where minor `j` sits after placement in minor `i`. */
  function Shifted(a: Major, i: nat, j: nat): nat
    requires i < |a.minors|
  {
    if a.minors[i].used == 0 || j < i then j else j + 1
  }

  /** The minor placement hands out has its header at PlacedHeader and
      requests exactly `size`; the minor it was placed in keeps its address
      (and its request when it was in use); every other minor is unchanged. */
  lemma PlacedKeeps(a: Major, i: nat, size: nat)
    requires i < |a.minors| && Fits(a.minors[i], size)
    ensures var r := Placed(a, i, size);
      && PlacedIndex(a, i) < |r.minors|
      && r.minors[PlacedIndex(a, i)].addr == PlacedHeader(a.minors[i])
      && r.minors[PlacedIndex(a, i)].used == size
      && r.minors[i].addr == a.minors[i].addr
      && (a.minors[i].used > 0 ==> r.minors[i].used == a.minors[i].used)
      && (forall j :: 0 <= j < |a.minors| && j != i ==>
            Shifted(a, i, j) < |r.minors| && r.minors[Shifted(a, i, j)] == a.minors[j])
  {
  }

  /* ---- heap_minor_free ------------------------------------------------------ */

  /** The first step of heap_minor_free: the minor's request is taken off the
      arena's `used` and the minor is marked free. */
  function Emptied(a: Major, i: nat): Major
    requires i < |a.minors|
  {
    var m := a.minors[i];
    a.(used := a.used - m.used, minors := a.minors[i := m.(used := 0)])
  }

  /** One coalescing step: minor `i` absorbs its right neighbour, header
      included, and the neighbour is unlinked. heap_minor_free does this
      twice: the previous minor absorbs the freed one, then whatever now
      holds the freed space absorbs the next minor when that one is free. */
  function Absorb(a: Major, i: nat): Major
    requires i + 1 < |a.minors|
  {
    var m := a.minors[i];
    var grown := m.(size := m.size + a.minors[i + 1].size + HEAP_ALIGN);
    a.(used := a.used - HEAP_ALIGN, minors := Unlink(a.minors[i := grown], i + 1))
  }

  /** Whether heap_minor_free merges the next minor: the `next` it captured
      before anything changed exists and is free. */
  predicate MergesNext(a: Major, i: nat)
    requires i < |a.minors|
  {
    i + 1 < |a.minors| && a.minors[i + 1].used == 0
  }

  /** Arena `a` after the first half of heap_minor_free: minor `i` emptied
      and, unless it is the head, absorbed by the previous minor. */
  function AfterPrev(a: Major, i: nat): Major
    requires i < |a.minors|
  {
    var e := Emptied(a, i);
    if i > 0 then Absorb(e, i - 1) else e
  }

  /** The position of the minor that now holds the freed space. */
  function Holder(i: nat): nat {
    if i > 0 then i - 1 else 0
  }

  /** What heap_minor_free leaves of arena `a` when minor `i` is freed
      (before the arena itself is considered for release). */
  function Freed(a: Major, i: nat): Major
    requires i < |a.minors|
  {
    var p := AfterPrev(a, i);
    if MergesNext(a, i) then Absorb(p, Holder(i)) else p
  }

  /** The headers heap_minor_free tags `HEAP_DEAD`: the freed minor's when
      the previous minor absorbs it, and the next minor's when it absorbs
      that one. */
  function Retired(a: Major, i: nat): seq<nat>
    requires i < |a.minors|
  {
    (if i > 0 then [a.minors[i].addr] else [])
    + (if MergesNext(a, i) then [a.minors[i + 1].addr] else [])
  }

  /** Freeing leaves the minor in place with nothing requested: the arena
      stays valid and `used` drops by exactly the request. */
  lemma EmptiedValid(a: Major, i: nat)
    requires MajorValid(a) && i < |a.minors|
    ensures HEAP_ALIGN + HEAP_ALIGN + a.minors[i].used <= a.used
    ensures MajorValid(Emptied(a, i))
    ensures Emptied(a, i).used + a.minors[i].used == a.used
    ensures Emptied(a, i).used >= 2 * HEAP_ALIGN
  {
    ChargeCovers(a.minors, i);
    ChargeUpdate(a.minors, i, a.minors[i].(used := 0));
    ChargeCovers(Emptied(a, i).minors, i);
  }

  /** Absorbing a free right neighbour keeps the arena valid and tiling the
      same region; `used` drops by the one header that disappears; the
      absorbing minor keeps its address and its request; every other minor
      stays, shifted down by one past the absorbed position. */
  lemma AbsorbValid(a: Major, i: int)
    requires MajorValid(a)
    requires 0 <= i && i + 1 < |a.minors| ==> a.minors[i + 1].used == 0
    ensures 0 <= i && i + 1 < |a.minors| ==>
      var r := Absorb(a, i);
      && MajorValid(r)
      && r.used + HEAP_ALIGN == a.used
      && r.base == a.base && r.size == a.size
      && |r.minors| + 1 == |a.minors|
      && r.minors[i].addr == a.minors[i].addr && r.minors[i].used == a.minors[i].used
      && (forall j :: 0 <= j < i ==> r.minors[j] == a.minors[j])
      && (forall j :: i + 1 <= j < |r.minors| ==> r.minors[j] == a.minors[j + 1])
  {
    if 0 <= i && i + 1 < |a.minors| {
      AbsorbCharge(a.minors, i);
      AbsorbTiles(a.minors, i, Absorb(a, i).minors, a.base + HEAP_ALIGN, a.base + a.size);
    }
  }

  /** The accounting half of AbsorbValid: absorbing a free neighbour takes
      exactly its header off the charge. */
  lemma AbsorbCharge(ms: seq<Minor>, i: nat)
    requires i + 1 < |ms| && ms[i + 1].used == 0
    ensures Charge(Unlink(ms[i := ms[i].(size := ms[i].size + ms[i + 1].size + HEAP_ALIGN)], i + 1)) + HEAP_ALIGN
      == Charge(ms)
  {
    var grown := ms[i].(size := ms[i].size + ms[i + 1].size + HEAP_ALIGN);
    var s1 := ms[i := grown];
    ChargeUpdate(ms, i, grown);
    ChargeUnlink(s1, i + 1);
  }

  /** The layout half of AbsorbValid: growing a minor over its right
      neighbour and unlinking the neighbour tiles the same region. */
  lemma AbsorbTiles(ms: seq<Minor>, i: nat, r: seq<Minor>, from: nat, to: nat)
    requires Tiles(ms, from, to) && i + 1 < |ms|
    requires r == Unlink(ms[i := ms[i].(size := ms[i].size + ms[i + 1].size + HEAP_ALIGN)], i + 1)
    requires forall j :: 0 <= j < |ms| ==> ms[j].used <= ms[j].size
    ensures Tiles(r, from, to)
    ensures forall j :: 0 <= j < |r| ==> r[j].used <= r[j].size
  {
    forall j | 0 <= j < |r|
      ensures r[j].used <= r[j].size
    {
      if j < i {
        assert r[j] == ms[j];
      } else if j > i {
        assert r[j] == ms[j + 1];
      }
    }
    forall j | 0 <= j < |r| - 1
      ensures r[j + 1].addr == End(r[j])
    {
      if j == i {
        assert r[j + 1] == ms[i + 2];
      } else if j > i {
        assert r[j + 1] == ms[j + 2] && r[j] == ms[j + 1];
      }
    }
    if i + 2 == |ms| {
      assert r[|r| - 1].size == ms[i].size + ms[i + 1].size + HEAP_ALIGN;
    } else {
      assert r[|r| - 1] == ms[|ms| - 1];
    }
  }

  /** Freeing minor `i` keeps the arena valid. `used` drops by the request
      and by one header per minor unlinked, and the minors that remain are
      the old ones less the retired headers. */
  lemma FreedValid(a: Major, i: nat)
    requires MajorValid(a) && i < |a.minors|
    ensures var r := Freed(a, i);
      && MajorValid(r)
      && r.base == a.base && r.size == a.size
      && r.used + a.minors[i].used + HEAP_ALIGN * |Retired(a, i)| == a.used
      && |r.minors| + |Retired(a, i)| == |a.minors|
  {
    EmptiedValid(a, i);
    var e := Emptied(a, i);
    AbsorbValid(e, i - 1);
    var p := if i > 0 then Absorb(e, i - 1) else e;
    var c := if i > 0 then i - 1 else 0;
    if MergesNext(a, i) {
      assert p.minors[c + 1] == a.minors[i + 1];
      AbsorbValid(p, c);
    }
  }

  /** The merges heap_minor_free performs, one at a time, each keep the
      arena valid. */
  lemma FreedSteps(a: Major, i: nat)
    requires MajorValid(a) && i < |a.minors|
    ensures MajorValid(Emptied(a, i))
    ensures MajorValid(AfterPrev(a, i))
    ensures MergesNext(a, i) ==> (Holder(i) + 1 < |AfterPrev(a, i).minors|
      && AfterPrev(a, i).minors[Holder(i) + 1] == a.minors[i + 1])
  {
    EmptiedValid(a, i);
    AbsorbValid(Emptied(a, i), i - 1);
  }

  /** Where minor `j` sits once the minor after position `c` is unlinked. */
  function Moved(c: nat, j: nat): nat {
    if j <= c then j else j - 1
  }

  /** Absorbing keeps every minor but the absorbed one at its address and
      with its request; those after it move down by one. */
  lemma AbsorbKeeps(a: Major, c: nat, j: nat)
    requires c + 1 < |a.minors| && j < |a.minors| && j != c + 1
    ensures |Absorb(a, c).minors| + 1 == |a.minors|
    ensures Moved(c, j) < |Absorb(a, c).minors|
    ensures Absorb(a, c).minors[Moved(c, j)].addr == a.minors[j].addr
    ensures Absorb(a, c).minors[Moved(c, j)].used == a.minors[j].used
    ensures j > c + 1 ==> Absorb(a, c).minors[j - 1] == a.minors[j]
  {
    var m := a.minors[c];
    var s1 := a.minors[c := m.(size := m.size + a.minors[c + 1].size + HEAP_ALIGN)];
    var r := Absorb(a, c).minors;
    assert r == Unlink(s1, c + 1);
    if j <= c {
      assert r[j] == s1[j];
    } else {
      assert r[j - 1] == s1[j];
    }
  }

  /** The first half of heap_minor_free keeps every minor but the freed
      one at its address and with its request. */
  lemma AfterPrevKeeps(a: Major, i: nat, j: nat)
    requires i < |a.minors| && j < |a.minors| && j != i
    ensures var j1 := if i > 0 then Moved(i - 1, j) else j;
      && j1 < |AfterPrev(a, i).minors|
      && AfterPrev(a, i).minors[j1].addr == a.minors[j].addr
      && AfterPrev(a, i).minors[j1].used == a.minors[j].used
  {
    if i > 0 {
      AbsorbKeeps(Emptied(a, i), i - 1, j);
    }
  }

  /** The minor after the freed one is, after the first merge, the
      neighbour of the holder. */
  lemma NextAfterPrev(a: Major, i: nat)
    requires i + 1 < |a.minors|
    ensures Holder(i) + 1 < |AfterPrev(a, i).minors|
    ensures AfterPrev(a, i).minors[Holder(i) + 1] == a.minors[i + 1]
  {
    if i > 0 {
      AbsorbKeeps(Emptied(a, i), i - 1, i + 1);
    }
  }

  /** Freeing minor `i` keeps minor `j`, when that one is in use, at the
      same address and with the same request. */
  lemma FreedKeepsOne(a: Major, i: nat, j: nat)
    requires i < |a.minors|
    requires j < |a.minors| && j != i && a.minors[j].used > 0
    ensures exists j' :: (0 <= j' < |Freed(a, i).minors|
      && Freed(a, i).minors[j'].addr == a.minors[j].addr
      && Freed(a, i).minors[j'].used == a.minors[j].used)
  {
    AfterPrevKeeps(a, i, j);
    var p := AfterPrev(a, i);
    var j1 := if i > 0 then Moved(i - 1, j) else j;
    if MergesNext(a, i) {
      NextAfterPrev(a, i);
      assert j1 != Holder(i) + 1 by {
        assert p.minors[j1].used > 0 && p.minors[Holder(i) + 1].used == 0;
      }
      AbsorbKeeps(p, Holder(i), j1);
      assert Freed(a, i) == Absorb(p, Holder(i));
      assert Freed(a, i).minors[Moved(Holder(i), j1)].addr == a.minors[j].addr;
    } else {
      assert Freed(a, i) == p;
      assert Freed(a, i).minors[j1].addr == a.minors[j].addr;
    }
  }

  /** Freeing minor `i` keeps every other minor that is in use, at the same
      address and with the same request: coalescing only ever unlinks the
      freed minor and a free neighbour. */
  lemma FreedKeepsInUse(a: Major, i: nat)
    requires MajorValid(a) && i < |a.minors|
    ensures forall j :: 0 <= j < |a.minors| && j != i && a.minors[j].used > 0 ==>
      exists j' :: 0 <= j' < |Freed(a, i).minors|
        && Freed(a, i).minors[j'].addr == a.minors[j].addr
        && Freed(a, i).minors[j'].used == a.minors[j].used
  {
    forall j | 0 <= j < |a.minors| && j != i && a.minors[j].used > 0
      ensures exists j' :: (0 <= j' < |Freed(a, i).minors|
        && Freed(a, i).minors[j'].addr == a.minors[j].addr
        && Freed(a, i).minors[j'].used == a.minors[j].used)
    {
      FreedKeepsOne(a, i, j);
    }
  }

  /* ---- which minors can be free ----------------------------------------------- */

  /** Only the head minor of an arena is ever free: a split always links a
      minor with a non-zero request, and a freed minor that is not the head
      is absorbed by its predecessor at once. */
  ghost predicate HeadOnlyFree(a: Major) {
    forall j :: 0 < j < |a.minors| ==> a.minors[j].used > 0
  }

  /** A fresh arena has only its head. */
  lemma FreshHeadOnlyFree(base: nat, request: nat)
    requires request + 2 * HEAP_ALIGN + HEAP_PAGE_SIZE < U64_LIMIT
    ensures HeadOnlyFree(WithFirstMinor(NewMajor(base, request), request))
  {
  }

  /** Placing a non-empty request keeps only the head free. */
  lemma PlacedHeadOnlyFree(a: Major, i: nat, size: nat)
    requires MajorValid(a) && i < |a.minors| && Fits(a.minors[i], size)
    requires HeadOnlyFree(a) && size > 0
    ensures HeadOnlyFree(Placed(a, i, size))
  {
    ChargeCovers(a.minors, i);
    if a.minors[i].used != 0 {
      SplitValid(a, i, size);
      var r := Placed(a, i, size);
      forall j | 0 < j < |r.minors|
        ensures r.minors[j].used > 0
      {
        if j > i + 1 {
          assert r.minors[j] == a.minors[j - 1];
        }
      }
    }
  }

  /** Resizing a minor to a non-empty request keeps only the head free. */
  lemma ResizedHeadOnlyFree(a: Major, i: nat, size: nat)
    requires i < |a.minors|
    requires HeadOnlyFree(a) && size > 0
    ensures HeadOnlyFree(Resized(a, i, size))
  {
  }

  /** From a reachable arena, the forward merge of heap_minor_free never
      happens: the minor after the freed one is never the head, so it is
      in use. Freeing therefore retires at most the freed header and keeps
      only the head free. */
  lemma FreedHeadOnlyFree(a: Major, i: nat)
    requires MajorValid(a) && i < |a.minors| && HeadOnlyFree(a)
    ensures !MergesNext(a, i)
    ensures Retired(a, i) == if i > 0 then [a.minors[i].addr] else []
    ensures HeadOnlyFree(Freed(a, i))
  {
    var r := Freed(a, i);
    assert r == AfterPrev(a, i);
    forall j' | 0 < j' < |r.minors|
      ensures r.minors[j'].used > 0
    {
      var j := if i > 0 && j' >= i then j' + 1 else j';
      AfterPrevKeeps(a, i, j);
      assert (if i > 0 then Moved(i - 1, j) else j) == j';
    }
  }

  /* ---- releasing an arena -------------------------------------------------------- */

  /** The release test as heap_minor_free writes it: only the arena header
      is counted as used. */
  predicate ReleaseAsWritten(a: Major) {
    a.used == HEAP_ALIGN
  }

  /** The head minor is never unlinked, so its header is always counted
      and the release test as written never holds: an arena whose blocks
      have all been freed stays allocated from the backing source. */
  lemma ReleaseAsWrittenNeverFires(a: Major)
    requires MajorValid(a)
    ensures a.used >= 2 * HEAP_ALIGN
    ensures !ReleaseAsWritten(a)
  {
    ChargeCovers(a.minors, 0);
  }

  /** One 64-byte request, then its free: the arena is idle again, yet the
      release test as written does not fire. */
  lemma IdleArenaKeptAsWritten(base: nat)
    ensures var f := Freed(WithFirstMinor(NewMajor(base, HEAP_ALIGN), HEAP_ALIGN), 0);
      && |f.minors| == 1 && f.minors[0].used == 0
      && !ReleaseAsWritten(f)
  {
    var a := WithFirstMinor(NewMajor(base, HEAP_ALIGN), HEAP_ALIGN);
    FreshArenaValid(base, HEAP_ALIGN);
    FreedValid(a, 0);
    EmptiedValid(a, 0);
    ReleaseAsWrittenNeverFires(Freed(a, 0));
  }

  /** The release test with the head minor's header counted: the arena
      holds nothing but one free minor. */
  predicate Release(a: Major) {
    a.used == 2 * HEAP_ALIGN
  }

  /** The corrected test holds exactly when the arena is idle: a single
      minor, free. */
  lemma ReleaseExactlyWhenIdle(a: Major)
    requires MajorValid(a)
    ensures Release(a) <==> |a.minors| == 1 && a.minors[0].used == 0
  {
    var ms := a.minors;
    assert Charge(ms) == HEAP_ALIGN + ms[0].used + Charge(ms[1..]);
    if |ms| > 1 {
      ChargeCovers(ms[1..], 0);
    } else {
      assert ms[1..] == [];
    }
  }

  /** With only the head free, freeing minor `i` releases the arena exactly
      when every other minor is free: the freed minor was the last live one. */
  lemma FreedReleasesWhenLastLive(a: Major, i: nat)
    requires MajorValid(a) && i < |a.minors| && HeadOnlyFree(a)
    ensures Release(Freed(a, i)) <==> forall j :: 0 <= j < |a.minors| && j != i ==> a.minors[j].used == 0
  {
    FreedValid(a, i);
    FreedHeadOnlyFree(a, i);
    var r := Freed(a, i);
    ReleaseExactlyWhenIdle(r);
    EmptiedValid(a, i);
    var e := Emptied(a, i);
    AbsorbValid(e, i - 1);
    if i > 0 {
      assert r == Absorb(e, i - 1);
      if |a.minors| > 2 {
        assert a.minors[if i == 1 then 2 else 1].used > 0;
      }
    } else {
      assert r == e;
      if |a.minors| > 1 {
        assert a.minors[1].used > 0;
      }
    }
  }
}
