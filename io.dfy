/** The writer side of src/p5k-base/io.h: the `io_whence` constructors,
    `io_putc`, and the format interpreter `io_vprint` with its front end
    `io_print`. The `write` hook becomes a `Sink` that appends to its
    output until it is full, after which every write fails. */
module Io {
  import opened Base

  /* ---- io_whence ------------------------------------------------------------- */

  datatype WhenceKind = Curr | Start | End

  /** `io_whence`: where a seek counts from, and an offset. */
  datatype Whence = Whence(kind: WhenceKind, off: int)

  /** `io_whence_curr(off)` */
  function WhenceCurr(off: int): (w: Whence)
    ensures w.kind == Curr && w.off == off
  {
    Whence(Curr, off)
  }

  /** `io_whence_start(off)` */
  function WhenceStart(off: int): (w: Whence)
    ensures w.kind == Start && w.off == off
  {
    Whence(Start, off)
  }

  /** `io_whence_end(off)` */
  function WhenceEnd(off: int): (w: Whence)
    ensures w.kind == End && w.off == off
  {
    Whence(End, off)
  }

  /* ---- the write hook ------------------------------------------------------ */

  /** The `write` hook of an `io`, with its `ctx`: a byte sink that takes
      whole writes while they fit its capacity and refuses every write
      that does not, with `RES_OUT_OF_BOUNDS`. */
  class Sink {
    var out: seq<u8>
    const capacity: nat

    ghost predicate Valid()
      reads this
    {
      |out| <= capacity
    }

    constructor (capacity: nat)
      ensures Valid() && out == [] && this.capacity == capacity
    {
      out := [];
      this.capacity := capacity;
    }

    /** io_write: the bytes are appended and their count returned, or
        nothing is written and the error returned. */
    method Write(bs: seq<u8>) returns (r: Res)
      requires Valid()
      modifies this
      ensures Valid()
      ensures |old(out)| + |bs| <= capacity ==> r == UOk(|bs|) && out == old(out) + bs
      ensures |old(out)| + |bs| > capacity ==> r == Err(ResOutOfBounds) && out == old(out)
    {
      if |out| + |bs| <= capacity {
        out := out + bs;
        r := UOk(|bs|);
      } else {
        r := Err(ResOutOfBounds);
      }
    }
  }

  /** What a sink holding `pre` holds after a sequence of one-byte writes
      of `piece`, each under `try`: all of it and its length when it fits,
      otherwise the bytes that fit and the first failing write's result. */
  ghost predicate Wrote(pre: seq<u8>, post: seq<u8>, capacity: nat, piece: seq<u8>, r: Res) {
    && |pre| <= capacity
    && (|pre| + |piece| <= capacity ==> r == UOk(|piece|) && post == pre + piece)
    && (|pre| + |piece| > capacity ==>
          r == Err(ResOutOfBounds) && post == pre + piece[..capacity - |pre|])
  }

  /** A write fails once `emitted` has filled the sink and more is due. */
  lemma PieceFails(pre: seq<u8>, emitted: seq<u8>, rest: seq<u8>, capacity: nat)
    requires |pre| + |emitted| == capacity && rest != []
    ensures Wrote(pre, pre + emitted, capacity, emitted + rest, Err(ResOutOfBounds))
  {
    assert (emitted + rest)[..|emitted|] == emitted;
  }

  /** A piece whose writes stopped part-way stops the whole output
      there. */
  lemma FailureStopsAll(pre: seq<u8>, emitted: seq<u8>, piece: seq<u8>, rest: seq<u8>,
                        post: seq<u8>, capacity: nat, r: Res)
    requires |pre| + |emitted| <= capacity
    requires Wrote(pre + emitted, post, capacity, piece, r) && r.IsFailure()
    ensures Wrote(pre, post, capacity, emitted + piece + rest, r)
  {
    var k := capacity - |pre + emitted|;
    assert (emitted + piece + rest)[..capacity - |pre|] == emitted + piece[..k];
  }

  /** A piece whose writes all succeeded extends the output by all of
      it. */
  lemma PieceFits(pre: seq<u8>, emitted: seq<u8>, piece: seq<u8>, post: seq<u8>, capacity: nat, r: Res)
    requires Wrote(pre + emitted, post, capacity, piece, r) && !r.IsFailure()
    ensures r.value == |piece| && |pre + (emitted + piece)| <= capacity
    ensures post == pre + (emitted + piece)
  {
    Regroup(pre, emitted, piece);
  }

  /** Output that fits the sink is all written, with its length as the
      count. */
  lemma AllWritten(pre: seq<u8>, emitted: seq<u8>, capacity: nat)
    requires |pre + emitted| <= capacity
    ensures Wrote(pre, pre + emitted, capacity, emitted, UOk(|emitted|))
  {
  }

  /** Concatenation regroups. */
  lemma Regroup(a: seq<u8>, b: seq<u8>, c: seq<u8>)
    ensures a + (b + c) == (a + b) + c
  {
  }

  /** io_putc: one one-byte write. */
  method Putc(io: Sink, c: u8) returns (r: Res)
    requires io.Valid()
    modifies io
    ensures io.Valid()
    ensures |old(io.out)| < io.capacity ==> r == UOk(1) && io.out == old(io.out) + [c]
    ensures |old(io.out)| == io.capacity ==> r == Err(ResOutOfBounds) && io.out == old(io.out)
  {
    r := io.Write([c]);
  }

  /* ---- the pieces of a format ---------------------------------------------- */

  const NUL: u8 := 0
  const PERCENT: u8 := 37
  const MINUS: u8 := 45
  const ZERO: u8 := 48
  const LOWER_S: u8 := 115
  const LOWER_D: u8 := 100
  const LOWER_X: u8 := 120

  /** `int`, the C type `%d` and `%x` arguments are read as. */
  type i32 = x: int | -0x8000_0000 <= x < 0x8000_0000

  /** A variadic argument: a NUL-terminated string or an `int`. A string
      whose sequence ends before a NUL ends there. */
  datatype Arg = Str(s: seq<u8>) | Int(v: i32)

  /** The bytes of a C string: those before its first NUL. */
  function CStr(s: seq<u8>): seq<u8> {
    if s == [] || s[0] == NUL then [] else [s[0]] + CStr(s[1..])
  }

  /** The bytes of a C string are a prefix of it without a NUL, cut at a
      NUL or at the end. */
  lemma {:induction false} CStrIsPrefix(s: seq<u8>)
    ensures |CStr(s)| <= |s| && CStr(s) == s[..|CStr(s)|]
    ensures forall i :: 0 <= i < |CStr(s)| ==> CStr(s)[i] != NUL
    ensures |CStr(s)| < |s| ==> s[|CStr(s)|] == NUL
  {
    if s != [] && s[0] != NUL {
      CStrIsPrefix(s[1..]);
    }
  }

  /** 10 to the power `k`. */
  function Pow10(k: nat): (r: nat)
    ensures r >= 1
  {
    if k == 0 then 1 else 10 * Pow10(k - 1)
  }

  /** The number of decimal digits of `n`: the least `k >= 1` with
      `n < 10^k`. */
  function NumDigits(n: nat): (k: nat)
    ensures k >= 1 && n < Pow10(k)
    ensures k == 1 || Pow10(k - 1) <= n
  {
    if n < 10 then 1 else 1 + NumDigits(n / 10)
  }

  /** The digit count is the only `k` with `10^(k-1) <= n < 10^k` (or `k = 1`). */
  lemma NumDigitsUnique(n: nat, k: nat)
    requires k >= 1 && n < Pow10(k) && (k == 1 || Pow10(k - 1) <= n)
    ensures NumDigits(n) == k
  {
    var j := NumDigits(n);
    if j < k {
      Pow10Grows(j, k - 1);
    } else if j > k {
      Pow10Grows(k, j - 1);
    }
  }

  lemma {:induction false} Pow10Grows(a: nat, b: nat)
    requires a <= b
    ensures Pow10(a) <= Pow10(b)
    decreases b - a
  {
    if a < b {
      Pow10Grows(a, b - 1);
    }
  }

  /** A product of non-negative numbers is non-negative. */
  lemma {:induction false} MulNonneg(a: nat, b: nat)
    ensures a * b >= 0
  {
    if a > 0 {
      MulNonneg(a - 1, b);
      assert a * b == (a - 1) * b + b;
    }
  }

  /** A non-zero multiple of `d` is at least `d` away from 0. */
  lemma MulAway(x: int, d: nat)
    ensures x >= 1 ==> x * d >= d
    ensures x <= -1 ==> x * d + d <= 0
  {
    if x >= 1 {
      MulNonneg(x - 1, d);
      assert x * d == (x - 1) * d + d;
    } else if x <= -1 {
      MulNonneg(-x - 1, d);
      assert x * d + d == -((-x - 1) * d);
    }
  }

  /** Euclidean division has one quotient and remainder. */
  lemma DivModUnique(v: int, d: nat, q: int, r: int)
    requires d > 0 && v == q * d + r && 0 <= r < d
    ensures v / d == q && v % d == r
  {
    var q0 := v / d;
    var r0 := v % d;
    assert v == q0 * d + r0;
    assert (q0 - q) * d == r - r0;
    MulAway(q0 - q, d);
  }

  /** Quotient bounds for a positive divisor. */
  lemma DivBelow(v: nat, d: nat, m: nat)
    requires d > 0
    ensures v < m * d <==> v / d < m
  {
    var q := v / d;
    assert v == q * d + v % d;
    MulAway(q - m, d);
    MulAway(m - q, d);
  }

  /** Dividing by `b` then by `P` is dividing by `b * P`, and the low
      part of the remainder modulo `b * P` is the remainder modulo `b`;
      `b` is the base of a numeral. */
  lemma BaseSplit(v: int, b: nat, P: nat)
    requires b > 1 && P > 0
    ensures v / (b * P) == (v / b) / P
    ensures v % (b * P) == ((v / b) % P) * b + v % b
  {
    var q := v / b;
    var a := q / P;
    var c := q % P;
    assert v == q * b + v % b;
    assert q == a * P + c;
    assert q * b == a * (b * P) + c * b;
    MulNonneg(P - 1 - c, b);
    assert (P - 1 - c) * b == P * b - c * b - b;
    DivModUnique(v, b * P, a, c * b + v % b);
  }

  /** The `k` low decimal digits of `v`, most significant first. */
  function Digits(v: nat, k: nat): (r: seq<u8>)
    ensures |r| == k
  {
    if k == 0 then [] else Digits(v / 10, k - 1) + [ZERO + v % 10]
  }

  /** The decimal numeral of `n`: no leading zeros, "0" for 0. */
  function Decimal(n: nat): seq<u8> {
    Digits(n, NumDigits(n))
  }

  /** What `%d` writes for `v`. */
  function Signed(v: i32): (r: seq<u8>)
    requires v > -0x8000_0000
  {
    (if v < 0 then [MINUS] else []) + Decimal(if v < 0 then -v else v)
  }

  /** The value of a string of decimal digits. */
  function DecValue(ds: seq<u8>): int {
    if ds == [] then 0 else DecValue(ds[..|ds| - 1]) * 10 + (ds[|ds| - 1] - ZERO)
  }

  /** The digits read back as `v` modulo 10^k. */
  lemma {:induction false} DigitsValue(v: nat, k: nat)
    ensures DecValue(Digits(v, k)) == v % Pow10(k)
  {
    if k > 0 {
      var ds := Digits(v, k);
      assert ds[..k - 1] == Digits(v / 10, k - 1);
      DigitsValue(v / 10, k - 1);
      BaseSplit(v, 10, Pow10(k - 1));
    }
  }

  /** Every byte of `Digits` is a decimal digit. */
  lemma {:induction false} DigitsOnly(v: nat, k: nat)
    ensures forall i :: 0 <= i < k ==> ZERO <= Digits(v, k)[i] <= ZERO + 9
  {
    if k > 0 {
      DigitsOnly(v / 10, k - 1);
    }
  }

  /** The digits taken from the top: the one at 10^k comes first. */
  lemma {:induction false} DigitsFront(v: nat, k: nat)
    ensures Digits(v, k + 1) == [ZERO + (v / Pow10(k)) % 10] + Digits(v, k)
  {
    if k > 0 {
      DigitsFront(v / 10, k - 1);
      BaseSplit(v, 10, Pow10(k - 1));
    }
  }

  /** One pass of the digit loop of `%d`, with `value` the remainder of
      `n` modulo 10^(j+1) and `divisor` 10^j: the quotient is the next
      digit and the new remainder is `n` modulo 10^j. */
  lemma DigitStep(n: nat, j: nat)
    ensures (n % Pow10(j + 1)) / Pow10(j) == (n / Pow10(j)) % 10
    ensures (n % Pow10(j + 1)) % Pow10(j) == n % Pow10(j)
    ensures Digits(n, j + 1) == [ZERO + (n / Pow10(j)) % 10] + Digits(n, j)
    ensures Pow10(j) / 10 == if j > 0 then Pow10(j - 1) else 0
  {
    var P := Pow10(j);
    var q := n / P;
    var r := n % P;
    assert n == q * P + r;
    assert q == (q / 10) * 10 + q % 10;
    assert q * P == (q / 10) * (10 * P) + (q % 10) * P;
    MulNonneg(9 - q % 10, P);
    assert (9 - q % 10) * P == 9 * P - (q % 10) * P;
    DivModUnique(n, 10 * P, q / 10, (q % 10) * P + r);
    DivModUnique((q % 10) * P + r, P, q % 10, r);
    DigitsFront(n, j);
  }

  /** The numeral reads back as the number, is made of digits only and
      starts with a zero only when it is "0". */
  lemma DecimalRoundTrip(n: nat)
    ensures DecValue(Decimal(n)) == n
    ensures |Decimal(n)| >= 1
    ensures forall i :: 0 <= i < |Decimal(n)| ==> ZERO <= Decimal(n)[i] <= ZERO + 9
    ensures Decimal(n)[0] == ZERO ==> n == 0 && Decimal(n) == [ZERO]
  {
    var k := NumDigits(n);
    DigitsValue(n, k);
    DivModUnique(n, Pow10(k), 0, n);
    DigitsOnly(n, k);
    DigitsFront(n, k - 1);
    var d := Pow10(k - 1);
    DivBelow(n, d, 10);
    if k > 1 {
      DivBelow(n, d, 1);
      DivModUnique(n / d, 10, 0, n / d);
    } else {
      assert Digits(n, 1) == Digits(n / 10, 0) + [ZERO + n % 10];
    }
  }

  /** `%d` writes a minus sign exactly for negative values, then the
      numeral of the magnitude. */
  lemma SignedShape(v: i32)
    requires v > -0x8000_0000
    ensures Signed(v)[0] == MINUS <==> v < 0
    ensures v < 0 ==> DecValue(Signed(v)[1..]) == -v
    ensures v >= 0 ==> DecValue(Signed(v)) == v
  {
    var m := if v < 0 then -v else v;
    DecimalRoundTrip(m);
    if v < 0 {
      assert Signed(v)[1..] == Decimal(m);
    } else {
      assert Signed(v) == Decimal(m);
    }
  }

  /** 16 to the power `k`. */
  function Pow16(k: nat): (r: nat)
    ensures r >= 1
  {
    if k == 0 then 1 else 16 * Pow16(k - 1)
  }

  const LOWER_A: u8 := 97

  /** Entry `n` of the table "0123456789abcdef" that `%x` indexes. */
  function HexDigit(n: nat): u8
    requires n < 16
  {
    if n < 10 then ZERO + n else LOWER_A + (n - 10)
  }

  /** A lowercase hex digit. */
  predicate IsHexDigit(b: u8) {
    ZERO <= b <= ZERO + 9 || LOWER_A <= b <= LOWER_A + 5
  }

  /** `v >> 4i` on a two's-complement `int`: `i` arithmetic shifts by
      four, each a floor division by 16. */
  function Shift4(v: int, i: nat): int {
    if i == 0 then v else Shift4(v, i - 1) / 16
  }

  /** The nibble `%x` writes at position `i` (0 least significant):
      `(v >> 4i) & 0xf`, the low four bits being the remainder modulo 16. */
  function Nibble(v: int, i: nat): (n: nat)
    ensures n < 16
  {
    Shift4(v, i) % 16
  }

  /** The `k` low nibbles of `v` as hex digits, most significant first. */
  function Hex(v: int, k: nat): (r: seq<u8>)
    ensures |r| == k
    decreases k
  {
    if k == 0 then [] else Hex(v / 16, k - 1) + [HexDigit(v % 16)]
  }

  /** What `%x` writes for `v`. */
  function Hex8(v: i32): seq<u8> {
    Hex(v, 8)
  }

  /** The value of a hex digit. */
  function HexDigitValue(b: u8): int {
    if b <= ZERO + 9 then b - ZERO else b - LOWER_A + 10
  }

  /** The value of a string of hex digits. */
  function HexValue(ds: seq<u8>): int {
    if ds == [] then 0 else HexValue(ds[..|ds| - 1]) * 16 + HexDigitValue(ds[|ds| - 1])
  }

  /** The digits read back as `v` modulo 16^k. */
  lemma {:induction false} HexValueOf(v: int, k: nat)
    ensures HexValue(Hex(v, k)) == v % Pow16(k)
    decreases k
  {
    if k > 0 {
      var ds := Hex(v, k);
      assert ds[..k - 1] == Hex(v / 16, k - 1);
      HexValueOf(v / 16, k - 1);
      BaseSplit(v, 16, Pow16(k - 1));
    }
  }

  /** Shifting by four then by `4i` is shifting by `4(i+1)`. */
  lemma {:induction false} ShiftThen(v: int, i: nat)
    ensures Shift4(v / 16, i) == Shift4(v, i + 1)
    decreases i
  {
    if i > 0 {
      ShiftThen(v, i - 1);
    }
  }

  /** The hex digits taken from the top: nibble `k` comes first. */
  lemma {:induction false} HexFront(v: int, k: nat)
    ensures Hex(v, k + 1) == [HexDigit(Nibble(v, k))] + Hex(v, k)
    decreases k
  {
    if k > 0 {
      HexFront(v / 16, k - 1);
      ShiftThen(v, k - 1);
    }
  }

  lemma Pow16Eight()
    ensures Pow16(8) == 0x1_0000_0000
  {
    assert Pow16(2) == 256;
    assert Pow16(4) == 65536;
  }

  /** Every byte `Hex` writes is a lowercase hex digit. */
  lemma {:induction false} HexDigitsOnly(v: int, k: nat)
    ensures forall i :: 0 <= i < k ==> IsHexDigit(Hex(v, k)[i])
    decreases k
  {
    if k > 0 {
      HexDigitsOnly(v / 16, k - 1);
    }
  }

  /** The residue modulo 2^32 of a 32-bit signed value is its two's-
      complement pattern. */
  lemma TwosComplement(v: i32)
    ensures v % 0x1_0000_0000 == if v >= 0 then v else v + 0x1_0000_0000
  {
    if v < 0 {
      DivModUnique(v, 0x1_0000_0000, -1, v + 0x1_0000_0000);
    } else {
      DivModUnique(v, 0x1_0000_0000, 0, v);
    }
  }

  /** `%x` writes eight lowercase hex digits whose value is the 32-bit
      two's-complement pattern of `v`. */
  lemma Hex8RoundTrip(v: i32)
    ensures |Hex8(v)| == 8
    ensures forall i :: 0 <= i < 8 ==> IsHexDigit(Hex8(v)[i])
    ensures HexValue(Hex8(v)) == if v >= 0 then v else v + 0x1_0000_0000
  {
    HexValueOf(v, 8);
    Pow16Eight();
    TwosComplement(v);
    HexDigitsOnly(v, 8);
  }

  /* ---- the format ------------------------------------------------------------ */

  /** Prefix a piece to the rest of an output, when the rest is defined. */
  function Prepend(p: seq<u8>, o: Option<seq<u8>>): (r: Option<seq<u8>>)
    ensures r.Some? <==> o.Some?
    ensures r.Some? ==> r.value == p + o.value
  {
    if o.Some? then Some(p + o.value) else None
  }

  /** What the `switch` of io_vprint writes for the specifier `c` with
      argument `ai` next, and the next argument after it; `None` when the
      argument is missing or of the wrong type. A NUL writes '%' like
      '%%' does. */
  function Conversion(c: u8, args: seq<Arg>, ai: nat): Option<(seq<u8>, nat)> {
    if c == NUL || c == PERCENT then Some(([PERCENT], ai))
    else if c == LOWER_S then
      if ai < |args| && args[ai].Str? then Some((CStr(args[ai].s), ai + 1)) else None
    else if c == LOWER_D then
      if ai < |args| && args[ai].Int? && args[ai].v > -0x8000_0000 then
        Some((Signed(args[ai].v), ai + 1))
      else None
    else if c == LOWER_X then
      if ai < |args| && args[ai].Int? then Some((Hex8(args[ai].v), ai + 1)) else None
    else Some(([], ai))
  }

  /** What io_vprint writes for the format from offset `f` on, with
      argument `ai` next. The format ends at its first NUL or at the end
      of the sequence. `None` stands for what the C leaves undefined: a
      '%' right before the end (the loop would step past the
      terminator), or a directive without an argument of its type. */
  function RenderFrom(fmt: seq<u8>, f: nat, args: seq<Arg>, ai: nat): (r: Option<seq<u8>>)
    decreases |fmt| - f
  {
    if f >= |fmt| || fmt[f] == NUL then Some([])
    else if fmt[f] != PERCENT then Prepend([fmt[f]], RenderFrom(fmt, f + 1, args, ai))
    else if f + 1 == |fmt| || fmt[f + 1] == NUL then None
    else
      match Conversion(fmt[f + 1], args, ai)
      case None => None
      case Some((piece, next)) => Prepend(piece, RenderFrom(fmt, f + 2, args, next))
  }

  /** What io_vprint writes for a whole format. */
  function Render(fmt: seq<u8>, args: seq<Arg>): Option<seq<u8>> {
    RenderFrom(fmt, 0, args, 0)
  }

  /** Rendering does not see what comes before the current offset and
      the next argument. */
  lemma {:induction false} RenderShift(p: seq<u8>, fmt: seq<u8>, f: nat, a: seq<Arg>, args: seq<Arg>, ai: nat)
    ensures RenderFrom(p + fmt, |p| + f, a + args, |a| + ai) == RenderFrom(fmt, f, args, ai)
    decreases |fmt| - f
  {
    var pf := p + fmt;
    var pa := a + args;
    if f < |fmt| && fmt[f] != NUL {
      assert pf[|p| + f] == fmt[f];
      if fmt[f] != PERCENT {
        RenderShift(p, fmt, f + 1, a, args, ai);
      } else if f + 1 < |fmt| && fmt[f + 1] != NUL {
        assert pf[|p| + f + 1] == fmt[f + 1];
        ConversionShift(fmt[f + 1], a, args, ai);
        var cv := Conversion(fmt[f + 1], args, ai);
        if cv.Some? {
          RenderShift(p, fmt, f + 2, a, args, cv.value.1);
        }
      }
    }
  }

  /** A conversion does not see the arguments before the next one. */
  lemma ConversionShift(c: u8, a: seq<Arg>, args: seq<Arg>, ai: nat)
    ensures Conversion(c, a + args, |a| + ai).Some? <==> Conversion(c, args, ai).Some?
    ensures Conversion(c, args, ai).Some? ==>
      && Conversion(c, a + args, |a| + ai).value.0 == Conversion(c, args, ai).value.0
      && Conversion(c, a + args, |a| + ai).value.1 == |a| + Conversion(c, args, ai).value.1
  {
    if ai < |args| {
      assert (a + args)[|a| + ai] == args[ai];
    }
  }

  /** Rendering the format from offset `f` is rendering its suffix. */
  lemma RenderSuffix(fmt: seq<u8>, f: nat, args: seq<Arg>, ai: nat)
    requires f <= |fmt| && ai <= |args|
    ensures RenderFrom(fmt, f, args, ai) == Render(fmt[f..], args[ai..])
  {
    assert fmt[..f] + fmt[f..] == fmt;
    assert args[..ai] + args[ai..] == args;
    RenderShift(fmt[..f], fmt[f..], 0, args[..ai], args[ai..], 0);
  }

  /** Text without '%' is written as it is, up to its first NUL. */
  lemma {:induction false} PlainTextVerbatim(fmt: seq<u8>, f: nat, args: seq<Arg>, ai: nat)
    requires forall i :: 0 <= i < |fmt| ==> fmt[i] != PERCENT
    requires f <= |fmt|
    ensures RenderFrom(fmt, f, args, ai) == Some(CStr(fmt[f..]))
    decreases |fmt| - f
  {
    if f < |fmt| && fmt[f] != NUL {
      PlainTextVerbatim(fmt, f + 1, args, ai);
      assert fmt[f..][1..] == fmt[f + 1..];
    }
  }

  /** `%%` writes one '%' and takes no argument. */
  lemma PercentEscape(rest: seq<u8>, args: seq<Arg>)
    ensures Render([PERCENT, PERCENT] + rest, args) == Prepend([PERCENT], Render(rest, args))
  {
    RenderShift([PERCENT, PERCENT], rest, 0, [], args, 0);
    assert [] + args == args;
  }

  /** `%s` writes its string up to the NUL and takes one argument. */
  lemma StringDirective(s: seq<u8>, rest: seq<u8>, args: seq<Arg>)
    ensures Render([PERCENT, LOWER_S] + rest, [Str(s)] + args) == Prepend(CStr(s), Render(rest, args))
  {
    RenderShift([PERCENT, LOWER_S], rest, 0, [Str(s)], args, 0);
  }

  /** `%d` writes the signed numeral and takes one argument. */
  lemma DecimalDirective(v: i32, rest: seq<u8>, args: seq<Arg>)
    requires v > -0x8000_0000
    ensures Render([PERCENT, LOWER_D] + rest, [Int(v)] + args) == Prepend(Signed(v), Render(rest, args))
  {
    RenderShift([PERCENT, LOWER_D], rest, 0, [Int(v)], args, 0);
  }

  /** `%x` writes eight hex digits and takes one argument. */
  lemma HexDirective(v: i32, rest: seq<u8>, args: seq<Arg>)
    ensures Render([PERCENT, LOWER_X] + rest, [Int(v)] + args) == Prepend(Hex8(v), Render(rest, args))
  {
    RenderShift([PERCENT, LOWER_X], rest, 0, [Int(v)], args, 0);
  }

  /** Any other specifier writes nothing and takes no argument. */
  lemma UnknownDirective(c: u8, rest: seq<u8>, args: seq<Arg>)
    requires c !in {NUL, PERCENT, LOWER_S, LOWER_D, LOWER_X}
    ensures Render([PERCENT, c] + rest, args) == Render(rest, args)
  {
    var fmt := [PERCENT, c] + rest;
    RenderShift([PERCENT, c], rest, 0, [], args, 0);
    assert [] + args == args;
    assert fmt[0] == PERCENT && fmt[1] == c;
    assert Conversion(c, args, 0) == Some(([], 0));
    var o := RenderFrom(fmt, 2, args, 0);
    assert o.Some? ==> [] + o.value == o.value;
  }

  /* ---- the printer ----------------------------------------------------------- */

  /** The `%s` case of io_vprint: one write per byte up to the NUL. */
  method PutStr(io: Sink, s: seq<u8>) returns (r: Res)
    requires io.Valid()
    modifies io
    ensures io.Valid() && Wrote(old(io.out), io.out, io.capacity, CStr(s), r)
  {
    ghost var pre := io.out;
    var written := 0;
    var j := 0;
    while j < |s| && s[j] != NUL
      invariant j <= |s| && CStr(s) == s[..j] + CStr(s[j..])
      invariant io.Valid() && io.out == pre + s[..j] && written == j
    {
      CStrStep(s, j);
      r := Putc(io, s[j]);
      if r.IsFailure() {
        PieceFails(pre, s[..j], CStr(s[j..]), io.capacity);
        return;
      }
      written := written + r.value;
      assert s[..j + 1] == s[..j] + [s[j]];
      j := j + 1;
    }
    assert CStr(s[j..]) == [];
    r := UOk(written);
  }

  /** One more byte of a C string before its NUL. */
  lemma CStrStep(s: seq<u8>, j: nat)
    requires j < |s| && s[j] != NUL
    ensures CStr(s[j..]) == [s[j]] + CStr(s[j + 1..])
  {
    assert s[j..][1..] == s[j + 1..];
  }

  /** The `%d` case of io_vprint: a '-' for a negative value, which is
      then negated, then its digits. */
  method PutDec(io: Sink, v: i32) returns (r: Res)
    requires io.Valid() && v > -0x8000_0000
    modifies io
    ensures io.Valid() && Wrote(old(io.out), io.out, io.capacity, Signed(v), r)
  {
    var value: int := v;
    if value < 0 {
      ghost var pre := io.out;
      r := Putc(io, MINUS);
      if r.IsFailure() {
        PieceFails(pre, [], Signed(v), io.capacity);
        return;
      }
      value := -value;
      var rest := PutDigits(io, value);
      if rest.IsFailure() {
        FailureStopsAll(pre, [MINUS], Decimal(value), [], io.out, io.capacity, rest);
        assert [MINUS] + Decimal(value) + [] == Signed(v);
        return rest;
      }
      r := UOk(r.value + rest.value);
    } else {
      r := PutDigits(io, value);
      assert Signed(v) == Decimal(value);
    }
  }

  /** The first loop of the `%d` case: the largest power of ten not above
      `value`, 1 for 0. */
  method LeadingPower(value: nat) returns (divisor: nat, ghost k: nat)
    ensures divisor == Pow10(k) && k + 1 == NumDigits(value)
  {
    divisor := 1;
    k := 0;
    while value / divisor > 9
      invariant divisor == Pow10(k) && (k == 0 || divisor <= value)
      decreases value - divisor
    {
      DivBelow(value, divisor, 10);
      divisor := divisor * 10;
      k := k + 1;
    }
    DivBelow(value, divisor, 10);
    NumDigitsUnique(value, k + 1);
  }

  /** The digits of the `%d` case: for each power of ten from the leading
      one down to 1, the quotient's digit, then the remainder goes on. */
  method PutDigits(io: Sink, n: nat) returns (r: Res)
    requires io.Valid()
    modifies io
    ensures io.Valid() && Wrote(old(io.out), io.out, io.capacity, Decimal(n), r)
  {
    ghost var pre := io.out;
    ghost var emitted: seq<u8> := [];
    var written := 0;
    var value: nat := n;
    var divisor;
    ghost var j: int;
    divisor, j := LeadingPower(value);
    DivModUnique(n, Pow10(j + 1), 0, n);
    while divisor > 0
      invariant -1 <= j && divisor == (if j >= 0 then Pow10(j) else 0)
      invariant value == n % Pow10(j + 1)
      invariant Decimal(n) == emitted + Digits(n, j + 1)
      invariant io.Valid() && io.out == pre + emitted && written == |emitted|
      decreases j + 1
    {
      DigitStep(n, j);
      var digit: u8 := ZERO + value / divisor;
      r := Putc(io, digit);
      if r.IsFailure() {
        PieceFails(pre, emitted, Digits(n, j + 1), io.capacity);
        return;
      }
      written := written + r.value;
      Regroup(emitted, [digit], Digits(n, j));
      emitted := emitted + [digit];
      value, divisor, j := value % divisor, divisor / 10, j - 1;
    }
    r := UOk(written);
  }

  /** The `%x` case of io_vprint: eight nibbles, most significant first,
      each written as its lowercase hex digit. */
  method PutHex(io: Sink, v: i32) returns (r: Res)
    requires io.Valid()
    modifies io
    ensures io.Valid() && Wrote(old(io.out), io.out, io.capacity, Hex8(v), r)
  {
    ghost var pre := io.out;
    ghost var emitted: seq<u8> := [];
    var written := 0;
    var i: int := 7;
    while i >= 0
      invariant -1 <= i <= 7
      invariant Hex8(v) == emitted + Hex(v, i + 1)
      invariant io.Valid() && io.out == pre + emitted && written == |emitted|
    {
      var nibble := Nibble(v, i);
      HexFront(v, i);
      r := Putc(io, HexDigit(nibble));
      if r.IsFailure() {
        PieceFails(pre, emitted, Hex(v, i + 1), io.capacity);
        return;
      }
      written := written + r.value;
      Regroup(emitted, [HexDigit(nibble)], Hex(v, i));
      emitted := emitted + [HexDigit(nibble)];
      i := i - 1;
    }
    r := UOk(written);
  }

  /** The `switch` of io_vprint on the specifier `c`. */
  method Convert(io: Sink, c: u8, args: seq<Arg>, ai: nat) returns (r: Res, next: nat)
    requires io.Valid() && Conversion(c, args, ai).Some?
    modifies io
    ensures io.Valid() && next == Conversion(c, args, ai).value.1
    ensures Wrote(old(io.out), io.out, io.capacity, Conversion(c, args, ai).value.0, r)
  {
    next := ai;
    if c == NUL || c == PERCENT {
      r := Putc(io, PERCENT);
    } else if c == LOWER_S {
      r := PutStr(io, args[ai].s);
      next := ai + 1;
    } else if c == LOWER_D {
      r := PutDec(io, args[ai].v);
      next := ai + 1;
    } else if c == LOWER_X {
      r := PutHex(io, args[ai].v);
      next := ai + 1;
    } else {
      r := UOk(0);
    }
  }

  /** One pass of the loop of io_vprint at format offset `f`: a plain
      byte is written as it is; a '%' is followed by the `switch` on the
      next byte. `todo` is what is left to write from `f`; the pass
      writes `piece` and leaves `todo'` for the offset and argument it
      returns. */
  method PrintStep(io: Sink, fmt: seq<u8>, f: nat, args: seq<Arg>, ai: nat, ghost todo: seq<u8>)
    returns (r: Res, f': nat, ai': nat, ghost piece: seq<u8>, ghost todo': seq<u8>)
    requires io.Valid() && f < |fmt| && fmt[f] != NUL
    requires RenderFrom(fmt, f, args, ai) == Some(todo)
    modifies io
    ensures io.Valid() && f < f' <= |fmt|
    ensures RenderFrom(fmt, f', args, ai') == Some(todo') && todo == piece + todo'
    ensures Wrote(old(io.out), io.out, io.capacity, piece, r)
  {
    if fmt[f] == PERCENT {
      var c := if f + 1 < |fmt| then fmt[f + 1] else NUL;
      piece := Conversion(c, args, ai).value.0;
      r, ai' := Convert(io, c, args, ai);
      f' := f + 2;
    } else {
      piece := [fmt[f]];
      r := Putc(io, fmt[f]);
      f', ai' := f + 1, ai;
    }
    todo' := RenderFrom(fmt, f', args, ai').value;
  }

  /** io_vprint: walk the format up to its NUL, writing plain bytes as
      they are and each directive's piece, one byte per write; return the
      count written, or the first failing write's result. */
  method VPrint(io: Sink, fmt: seq<u8>, args: seq<Arg>) returns (r: Res)
    requires io.Valid() && Render(fmt, args).Some?
    modifies io
    ensures io.Valid() && Wrote(old(io.out), io.out, io.capacity, Render(fmt, args).value, r)
  {
    ghost var total := Render(fmt, args).value;
    ghost var pre := io.out;
    ghost var emitted: seq<u8> := [];
    ghost var todo := total;
    var written := 0;
    var f := 0;
    var ai := 0;
    while f < |fmt| && fmt[f] != NUL
      invariant f <= |fmt| && RenderFrom(fmt, f, args, ai) == Some(todo)
      invariant total == emitted + todo
      invariant io.Valid() && io.out == pre + emitted && written == |emitted|
      invariant |pre + emitted| <= io.capacity
      decreases |fmt| - f
    {
      ghost var piece, todo';
      r, f, ai, piece, todo' := PrintStep(io, fmt, f, args, ai, todo);
      if r.IsFailure() {
        FailureStopsAll(pre, emitted, piece, todo', io.out, io.capacity, r);
        return;
      }
      PieceFits(pre, emitted, piece, io.out, io.capacity, r);
      written := written + r.value;
      Regroup(emitted, piece, todo');
      emitted, todo := emitted + piece, todo';
    }
    assert todo == [];
    assert emitted == total;
    AllWritten(pre, emitted, io.capacity);
    r := UOk(written);
  }

  /** io_print: io_vprint over the argument list. */
  method Print(io: Sink, fmt: seq<u8>, args: seq<Arg>) returns (r: Res)
    requires io.Valid() && Render(fmt, args).Some?
    modifies io
    ensures io.Valid() && Wrote(old(io.out), io.out, io.capacity, Render(fmt, args).value, r)
  {
    r := VPrint(io, fmt, args);
  }
}
