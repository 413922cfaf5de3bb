/** Fixed-width integers, the `res` result convention with its `try`
    propagation, and the byte-buffer helpers of src/p5k-base/base.h. */
module Base {

  /** `u8`: one byte. */
  type u8 = x: int | 0 <= x < 256

  const U32_LIMIT: nat := 0x1_0000_0000
  const U64_LIMIT: nat := 0x1_0000_0000_0000_0000

  /** 256 to the power `n`: the weight of byte `n` of a word. */
  function Pow256(n: nat): (r: nat)
    ensures r > 0
  {
    if n == 0 then 1 else 256 * Pow256(n - 1)
  }

  /** A value that may be absent: the model's `NULL`/`nil`. */
  datatype Option<T> = None | Some(value: T)

  /** `enum res_type`. */
  datatype ResType = ResOk | ResOutOfBounds

  /** `res`: a tag and a payload. The payload is the union of `uvalue` and
      `ivalue`; the model keeps the number it was built from. `IsFailure`,
      `PropagateFailure` and `Extract` state what `try(e)` does with a
      `res`: a non-OK one is returned from the enclosing function
      unchanged, an OK one is the value of the expression. */
  datatype Res = Res(kind: ResType, value: int) {
    predicate IsFailure() {
      kind != ResOk
    }

    function PropagateFailure(): Res
      requires IsFailure()
    {
      this
    }

    function Extract(): Res
      requires !IsFailure()
    {
      this
    }
  }

  /** `ok()` */
  function Ok(): Res {
    Res(ResOk, 0)
  }

  /** `iok(v)` */
  function IOk(v: int): Res {
    Res(ResOk, v)
  }

  /** `uok(v)` */
  function UOk(v: nat): Res {
    Res(ResOk, v)
  }

  /** `err(t)` */
  function Err(t: ResType): Res {
    Res(t, 0)
  }

  /** What the constructors build, and how `try` treats each of them. */
  lemma ResConstructors(v: int, u: nat, t: ResType)
    ensures Ok().kind == ResOk && Ok().value == 0 && !Ok().IsFailure()
    ensures IOk(v).kind == ResOk && IOk(v).value == v && !IOk(v).IsFailure()
    ensures UOk(u).kind == ResOk && UOk(u).value == u && !UOk(u).IsFailure()
    ensures Err(t).kind == t && Err(t).value == 0
    ensures Err(t).IsFailure() <==> t != ResOk
  {
  }

  /** `try` hands a failing result back unchanged and lets an OK one through
      as its own value. */
  lemma TryPropagatesUnchanged(r: Res)
    ensures r.IsFailure() ==> r.PropagateFailure() == r
    ensures !r.IsFailure() ==> r.Extract() == r && r.kind == ResOk
  {
  }

  /** `mem_zero`: every byte of the buffer becomes 0; the same buffer is
      returned. */
  method MemZero(buf: array<u8>) returns (r: array<u8>)
    modifies buf
    ensures r == buf
    ensures forall i :: 0 <= i < buf.Length ==> buf[i] == 0
  {
    for i := 0 to buf.Length
      invariant forall j :: 0 <= j < i ==> buf[j] == 0
    {
      buf[i] := 0;
    }
    r := buf;
  }

  /** `mem_copy`: the first min(dst.len, src.len) bytes of `src` are copied
      into `dst`, the rest of `dst` keeps its bytes, and `dst` is returned.
      The two buffers may be the same array. */
  method MemCopy(dst: array<u8>, src: array<u8>) returns (r: array<u8>)
    modifies dst
    ensures r == dst
    ensures forall i :: 0 <= i < dst.Length && i < src.Length ==> dst[i] == old(src[i])
    ensures forall i :: src.Length <= i < dst.Length ==> dst[i] == old(dst[i])
  {
    var i := 0;
    while i < dst.Length && i < src.Length
      invariant 0 <= i <= dst.Length
      invariant i <= src.Length
      invariant forall j :: 0 <= j < i ==> dst[j] == old(src[j])
      invariant forall j :: i <= j < dst.Length ==> dst[j] == old(dst[j])
      invariant forall j :: i <= j < src.Length ==> src[j] == old(src[j])
    {
      dst[i] := src[i];
      i := i + 1;
    }
    r := dst;
  }
}
