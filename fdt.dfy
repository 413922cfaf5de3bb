/** The flattened devicetree header reader of src/fdt/fdt.h. The header is
    ten big-endian 32-bit words, in the order section 5.2 of the
    Devicetree Specification lays them out. */
module Fdt {
  import opened Base
  import opened Io
  import opened Cursors

  /** `FDT_MAGIC`. The reader does not compare the magic word with it. */
  const FDT_MAGIC: nat := 0xd00dfeed

  /** The byte size of the header the reader consumes. */
  const HEADER_SIZE: nat := 40

  /** `fdt_header`. */
  datatype Header = Header(
    magic: nat,
    totalsize: nat,
    off_dt_struct: nat,
    off_dt_strings: nat,
    off_mem_rsvmap: nat,
    version: nat,
    last_comp_version: nat,
    boot_cpuid_phys: nat,
    size_dt_strings: nat,
    size_dt_struct: nat)

  /** The least of two counts. */
  function Min(a: nat, b: nat): nat {
    if a <= b then a else b
  }

  /** The word cursor_u32be leaves in a field that held `old_` when the
      header is read from offset `at` of `buf` (or from the end, when the
      buffer is shorter). */
  function FieldAt(buf: seq<u8>, at: nat, old_: nat): nat {
    Word(buf, Min(at, |buf|), old_, 4)
  }

  /** The header fdt_parse_header fills from `buf` read at `at`, where the
      fields held `h` before. */
  function HeaderAt(buf: seq<u8>, at: nat, h: Header): Header {
    Header(
      FieldAt(buf, at, h.magic),
      FieldAt(buf, at + 4, h.totalsize),
      FieldAt(buf, at + 8, h.off_dt_struct),
      FieldAt(buf, at + 12, h.off_dt_strings),
      FieldAt(buf, at + 16, h.off_mem_rsvmap),
      FieldAt(buf, at + 20, h.version),
      FieldAt(buf, at + 24, h.last_comp_version),
      FieldAt(buf, at + 28, h.boot_cpuid_phys),
      FieldAt(buf, at + 32, h.size_dt_strings),
      FieldAt(buf, at + 36, h.size_dt_struct))
  }

  /** The ten fields in the order of section 5.2 of the Devicetree
      Specification. */
  function Words(h: Header): (ws: seq<nat>)
    ensures |ws| == 10
  {
    [h.magic, h.totalsize, h.off_dt_struct, h.off_dt_strings, h.off_mem_rsvmap,
     h.version, h.last_comp_version, h.boot_cpuid_phys, h.size_dt_strings, h.size_dt_struct]
  }

  /** Words written out one after the other, each as four big-endian
      bytes. */
  function EncodeWords(ws: seq<nat>): (bs: seq<u8>)
    ensures |bs| == 4 * |ws|
  {
    if ws == [] then [] else BeBytes(ws[0], 4) + EncodeWords(ws[1..])
  }

  /** The 40 bytes of a header as a devicetree blob begins with them. */
  function Encode(h: Header): (bs: seq<u8>)
    ensures |bs| == HEADER_SIZE
  {
    EncodeWords(Words(h))
  }

  /** Word `i` of an encoding sits at byte `4 * i`. */
  lemma {:induction false} EncodedWordAt(ws: seq<nat>, i: nat)
    requires i < |ws|
    ensures EncodeWords(ws)[4 * i..4 * i + 4] == BeBytes(ws[i], 4)
  {
    if i > 0 {
      EncodedWordAt(ws[1..], i - 1);
      assert EncodeWords(ws) == BeBytes(ws[0], 4) + EncodeWords(ws[1..]);
    }
  }

  /** Four big-endian bytes of a 32-bit `x` at `at` read back as `x`. */
  lemma FieldOfBytes(buf: seq<u8>, at: nat, x: nat, old_: nat)
    requires at + 4 <= |buf| && buf[at..at + 4] == BeBytes(x, 4) && x < 0x1_0000_0000
    ensures FieldAt(buf, at, old_) == x
  {
    WordFull(buf, at, old_, 4);
    assert Pow256(4) == 0x1_0000_0000 by {
      assert Pow256(2) == 65536;
    }
    BeRoundTrip(x, 4);
  }

  /** A slice that lies inside `a` is the same slice of `a + b`. */
  lemma SliceOfPrefix(a: seq<u8>, b: seq<u8>, lo: nat, hi: nat)
    requires lo <= hi <= |a|
    ensures (a + b)[lo..hi] == a[lo..hi]
  {
  }

  /** Reading field `i` of an encoding, followed by anything, gives the
      word back when it fits 32 bits. */
  lemma FieldOfEncoded(ws: seq<nat>, rest: seq<u8>, i: nat, old_: nat)
    requires i < |ws| && ws[i] < 0x1_0000_0000
    ensures FieldAt(EncodeWords(ws) + rest, 4 * i, old_) == ws[i]
  {
    var e := EncodeWords(ws);
    var at := 4 * i;
    EncodedWordAt(ws, i);
    SliceOfPrefix(e, rest, at, at + 4);
    FieldOfBytes(e + rest, at, ws[i], old_);
  }

  /** A header written out as ten big-endian words reads back field by
      field, whatever the fields held before and whatever the magic word
      is. */
  lemma HeaderRoundTrip(h: Header, stale: Header, rest: seq<u8>)
    requires forall i :: 0 <= i < 10 ==> Words(h)[i] < 0x1_0000_0000
    ensures HeaderAt(Encode(h) + rest, 0, stale) == h
  {
    var ws := Words(h);
    FieldOfEncoded(ws, rest, 0, stale.magic);
    FieldOfEncoded(ws, rest, 1, stale.totalsize);
    FieldOfEncoded(ws, rest, 2, stale.off_dt_struct);
    FieldOfEncoded(ws, rest, 3, stale.off_dt_strings);
    FieldOfEncoded(ws, rest, 4, stale.off_mem_rsvmap);
    FieldOfEncoded(ws, rest, 5, stale.version);
    FieldOfEncoded(ws, rest, 6, stale.last_comp_version);
    FieldOfEncoded(ws, rest, 7, stale.boot_cpuid_phys);
    FieldOfEncoded(ws, rest, 8, stale.size_dt_strings);
    FieldOfEncoded(ws, rest, 9, stale.size_dt_struct);
  }

  /** With four bytes left a field does not depend on what it held. */
  lemma FieldFull(buf: seq<u8>, at: nat, old1: nat, old2: nat)
    requires at + 4 <= |buf|
    ensures FieldAt(buf, at, old1) == FieldAt(buf, at, old2) == FromBe(buf[at..at + 4])
  {
    WordFull(buf, at, old1, 4);
    WordFull(buf, at, old2, 4);
  }

  /** With the whole header in the buffer, the header read is the same
      whatever the fields held before. */
  lemma FullHeaderIgnoresOld(buf: seq<u8>, at: nat, h1: Header, h2: Header)
    requires at + HEADER_SIZE <= |buf|
    ensures HeaderAt(buf, at, h1) == HeaderAt(buf, at, h2)
  {
    FieldFull(buf, at, h1.magic, h2.magic);
    FieldFull(buf, at + 4, h1.totalsize, h2.totalsize);
    FieldFull(buf, at + 8, h1.off_dt_struct, h2.off_dt_struct);
    FieldFull(buf, at + 12, h1.off_dt_strings, h2.off_dt_strings);
    FieldFull(buf, at + 16, h1.off_mem_rsvmap, h2.off_mem_rsvmap);
    FieldFull(buf, at + 20, h1.version, h2.version);
    FieldFull(buf, at + 24, h1.last_comp_version, h2.last_comp_version);
    FieldFull(buf, at + 28, h1.boot_cpuid_phys, h2.boot_cpuid_phys);
    FieldFull(buf, at + 32, h1.size_dt_strings, h2.size_dt_strings);
    FieldFull(buf, at + 36, h1.size_dt_struct, h2.size_dt_struct);
  }

  /** One cursor_u32be step of fdt_parse_header: the cursor stands at
      the field's offset `pos`, or at the end when the buffer is shorter. */
  method ReadField(c: Cursor, ghost pos: nat, old_: nat) returns (r: Res, v: nat)
    requires c.Valid() && c.curr == Min(pos, |c.buf|)
    modifies c
    ensures c.Valid() && c.curr == Min(pos + 4, |c.buf|)
    ensures r.kind == ResOk && v == FieldAt(c.buf, pos, old_)
  {
    r, v := c.U32Be(old_);
  }

  /** fdt_parse_header: ten `try(cursor_u32be(...))` in field order into
      the header that held `h`. A cursor read never fails (ReadField gives
      an OK `res` every time), so no `try` returns early; the model drops
      those results instead of testing them. It returns `ok()` on any
      buffer, advances by 40 bytes or to the end, and accepts any magic
      word. */
  method ParseHeader(c: Cursor, h: Header) returns (r: Res, h': Header)
    requires c.Valid()
    modifies c
    ensures c.Valid() && r == Ok()
    ensures c.curr == old(c.curr) + Min(HEADER_SIZE, old(c.Rem()))
    ensures h' == HeaderAt(c.buf, old(c.curr), h)
  {
    ghost var at := c.curr;
    ghost var rem := c.Rem();
    var _, magic := ReadField(c, at + 0, h.magic);
    var _, totalsize := ReadField(c, at + 4, h.totalsize);
    var _, off_dt_struct := ReadField(c, at + 8, h.off_dt_struct);
    var _, off_dt_strings := ReadField(c, at + 12, h.off_dt_strings);
    var _, off_mem_rsvmap := ReadField(c, at + 16, h.off_mem_rsvmap);
    var _, version := ReadField(c, at + 20, h.version);
    var _, last_comp_version := ReadField(c, at + 24, h.last_comp_version);
    var _, boot_cpuid_phys := ReadField(c, at + 28, h.boot_cpuid_phys);
    var _, size_dt_strings := ReadField(c, at + 32, h.size_dt_strings);
    var _, size_dt_struct := ReadField(c, at + 36, h.size_dt_struct);
    h' := Header(magic, totalsize, off_dt_struct, off_dt_strings, off_mem_rsvmap,
                 version, last_comp_version, boot_cpuid_phys, size_dt_strings, size_dt_struct);
    r := Ok();
    assert c.curr == Min(at + 40, |c.buf|);
    assert c.curr == at + Min(HEADER_SIZE, rem);
  }
}
