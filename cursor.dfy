/** The byte cursor of src/p5k-base/cursor.h: a read position `curr` over a
    byte buffer, with bounded reads, seeks that report out-of-bounds
    requests, and big-endian integer reads. */
module Cursors {
  import opened Base
  import opened Io

  /* ---- byte orders ----------------------------------------------------------- */

  /** The value of `bs` read most significant byte first. */
  function FromBe(bs: seq<u8>): nat
    decreases |bs|
  {
    if bs == [] then 0 else FromBe(bs[..|bs| - 1]) * 256 + bs[|bs| - 1]
  }

  /** The `n` low bytes of `x`, most significant first. */
  function BeBytes(x: nat, n: nat): (bs: seq<u8>)
    ensures |bs| == n
  {
    if n == 0 then [] else BeBytes(x / 256, n - 1) + [(x % 256) as u8]
  }

  /** The `n` low bytes of `x` as a little-endian host stores them. */
  function LeBytes(x: nat, n: nat): (bs: seq<u8>)
    ensures |bs| == n
  {
    if n == 0 then [] else [(x % 256) as u8] + LeBytes(x / 256, n - 1)
  }

  /** Writing a value out big-endian and reading it back gives the value,
      when it fits the width. */
  lemma {:induction false} BeRoundTrip(x: nat, n: nat)
    requires x < Pow256(n)
    ensures FromBe(BeBytes(x, n)) == x
  {
    if n > 0 {
      var bs := BeBytes(x, n);
      assert bs[..n - 1] == BeBytes(x / 256, n - 1);
      BeRoundTrip(x / 256, n - 1);
    }
  }

  /** A big-endian read of `n` bytes is below 256^n, so it fits the
      integer it is read into. */
  lemma {:induction false} FromBeBound(bs: seq<u8>)
    ensures FromBe(bs) < Pow256(|bs|)
    decreases |bs|
  {
    if bs != [] {
      FromBeBound(bs[..|bs| - 1]);
    }
  }

  /** What `cursor_u16be`/`u32be`/`u64be` leave in the `n`-byte integer
      that held `old_` once `got` bytes were read into its storage: the
      bytes read replace the first bytes of its little-endian image, and
      the byte swap reads that image most significant byte first. */
  function Swapped(got: seq<u8>, old_: nat, n: nat): nat
    requires |got| <= n
  {
    FromBe(got + LeBytes(old_, n)[|got|..])
  }

  /** After a full read the integer is the big-endian value of the bytes
      read, whatever it held before. */
  lemma SwappedFull(got: seq<u8>, old_: nat)
    ensures Swapped(got, old_, |got|) == FromBe(got)
  {
    assert LeBytes(old_, |got|)[|got|..] == [];
    assert got + [] == got;
  }

  /** The `n`-byte integer that held `old_` after a read at offset `at` of
      `buf`: the bytes there, as many as are left, over its old image. */
  function Word(buf: seq<u8>, at: nat, old_: nat, n: nat): nat
    requires at <= |buf|
  {
    var hi := if at + n <= |buf| then at + n else |buf|;
    Swapped(buf[at..hi], old_, n)
  }

  /** With `n` bytes left the word is their big-endian value, below
      256^n, whatever the integer held before. */
  lemma WordFull(buf: seq<u8>, at: nat, old_: nat, n: nat)
    requires at + n <= |buf|
    ensures Word(buf, at, old_, n) == FromBe(buf[at..at + n])
    ensures Word(buf, at, old_, n) < Pow256(n)
  {
    SwappedFull(buf[at..at + n], old_);
    FromBeBound(buf[at..at + n]);
  }

  /* ---- the cursor -------------------------------------------------------------- */

  /** `cursor`: the buffer and the read position, as an offset into it. */
  class Cursor {
    const buf: seq<u8>
    var curr: nat

    ghost predicate Valid()
      reads this
    {
      curr <= |buf|
    }

    /** cursor_make: a cursor at the start of `b`. */
    constructor (b: seq<u8>)
      ensures Valid() && buf == b && curr == 0 && Rem() == |b|
    {
      buf := b;
      curr := 0;
    }

    /** cursor_rem: the bytes left to read. */
    function Rem(): (r: nat)
      requires Valid()
      reads this
      ensures curr + r == |buf|
    {
      |buf| - curr
    }

    /** cursor_read: copy up to `n` bytes from the read position into
      `out`, as many as are left when fewer are; advance past them; never
      fails and returns the count. `out` has room for `n` bytes. */
    method Read(n: nat, out: array<u8>) returns (r: Res)
      requires Valid() && n <= out.Length
      modifies this, out
      ensures Valid()
      ensures var count := if n <= old(Rem()) then n else old(Rem());
        && r == UOk(count)
        && curr == old(curr) + count
        && out[..count] == buf[old(curr)..curr]
        && out[count..] == old(out[count..])
    {
      var count := n;
      if count > Rem() {
        count := Rem();
      }
      ghost var data := buf[curr..curr + count];
      for i := 0 to count
        invariant curr == old(curr)
        invariant forall k :: 0 <= k < i ==> out[k] == data[k]
        invariant out[count..] == old(out[count..])
      {
        out[i] := buf[curr + i];
      }
      assert out[..count] == data;
      curr := curr + count;
      r := UOk(count);
    }

    /** cursor_seek: move by `n` from the read position, or to `n` from
      the start, or to `n` before the end. A target past the end is
      refused with `RES_OUT_OF_BOUNDS` and the position kept; otherwise
      the new position is returned. The whence's own offset is not
      used. */
    method Seek(n: nat, w: Whence) returns (r: Res)
      requires Valid()
      modifies this
      ensures Valid()
      ensures var limit := if w.kind == Curr then old(Rem()) else |buf|;
        && (n > limit ==> r == Err(ResOutOfBounds) && curr == old(curr))
        && (n <= limit ==> r == UOk(curr) && curr == match w.kind
              case Curr => old(curr) + n
              case Start => n
              case End => |buf| - n)
    {
      match w.kind {
        case Curr =>
          if n > Rem() {
            return Err(ResOutOfBounds);
          }
          curr := curr + n;
        case Start =>
          if n > |buf| {
            return Err(ResOutOfBounds);
          }
          curr := n;
        case End =>
          if n > |buf| {
            return Err(ResOutOfBounds);
          }
          curr := |buf| - n;
      }
      r := UOk(curr);
    }

    /** The shared body of cursor_u16be/u32be/u64be for an `n`-byte
      integer that holds `v`: read into its storage, then swap. */
    method ReadBe(n: nat, v: nat) returns (r: Res, v': nat)
      requires Valid()
      modifies this
      ensures Valid()
      ensures var count := if n <= old(Rem()) then n else old(Rem());
        && r == UOk(count) && curr == old(curr) + count
        && v' == Swapped(buf[old(curr)..curr], v, n)
    {
      var storage := new u8[n];
      var image := LeBytes(v, n);
      forall i | 0 <= i < n {
        storage[i] := image[i];
      }
      assert storage[..] == image;
      r := Read(n, storage);
      assert storage[r.value..] == image[r.value..];
      assert storage[..] == storage[..r.value] + storage[r.value..];
      v' := FromBe(storage[..]);
    }

    /** cursor_u8be: one byte, read as it is. */
    method U8Be(v: u8) returns (r: Res, v': u8)
      requires Valid()
      modifies this
      ensures Valid()
      ensures old(Rem()) >= 1 ==> r == UOk(1) && curr == old(curr) + 1 && v' == buf[old(curr)]
      ensures old(Rem()) == 0 ==> r == UOk(0) && curr == old(curr) && v' == v
    {
      var storage := new u8[1];
      storage[0] := v;
      r := Read(1, storage);
      v' := storage[0];
    }

    /** cursor_u16be. */
    method U16Be(v: nat) returns (r: Res, v': nat)
      requires Valid()
      modifies this
      ensures Valid()
      ensures old(Rem()) >= 2 ==> r == UOk(2) && curr == old(curr) + 2 && v' == FromBe(buf[old(curr)..curr])
      ensures old(Rem()) < 2 ==> r == UOk(old(Rem())) && curr == |buf|
      ensures v' == Word(buf, old(curr), v, 2)
    {
      r, v' := ReadBe(2, v);
      SwappedFull(buf[old(curr)..curr], v);
    }

    /** cursor_u32be. */
    method U32Be(v: nat) returns (r: Res, v': nat)
      requires Valid()
      modifies this
      ensures Valid()
      ensures old(Rem()) >= 4 ==> r == UOk(4) && curr == old(curr) + 4 && v' == FromBe(buf[old(curr)..curr])
      ensures old(Rem()) < 4 ==> r == UOk(old(Rem())) && curr == |buf|
      ensures v' == Word(buf, old(curr), v, 4)
    {
      r, v' := ReadBe(4, v);
      SwappedFull(buf[old(curr)..curr], v);
    }

    /** cursor_u64be. */
    method U64Be(v: nat) returns (r: Res, v': nat)
      requires Valid()
      modifies this
      ensures Valid()
      ensures old(Rem()) >= 8 ==> r == UOk(8) && curr == old(curr) + 8 && v' == FromBe(buf[old(curr)..curr])
      ensures old(Rem()) < 8 ==> r == UOk(old(Rem())) && curr == |buf|
      ensures v' == Word(buf, old(curr), v, 8)
    {
      r, v' := ReadBe(8, v);
      SwappedFull(buf[old(curr)..curr], v);
    }
  }
}
