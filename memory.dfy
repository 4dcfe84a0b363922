/** The two buffer primitives the C code uses: a fill loop over a range and
    `memcpy` out of a buffer the copy does not write. */
module Memory {

  /** Sets a[start .. start + count] to v and leaves the rest of `a` alone. */
  method Fill<T>(a: array<T>, start: nat, count: nat, v: T)
    requires start + count <= a.Length
    modifies a
    ensures forall i :: 0 <= i < a.Length ==>
      a[i] == if start <= i < start + count then v else old(a[i])
  {
    for t := 0 to count
      invariant forall i :: 0 <= i < a.Length ==>
        a[i] == if start <= i < start + t then v else old(a[i])
    {
      a[start + t] := v;
    }
  }

  /** memcpy(dst + dstOff, src + srcOff, count). The source is given by
      its contents: in every caller it is a buffer other than `dst`. */
  method Memcpy<T>(dst: array<T>, dstOff: nat, src: seq<T>, srcOff: nat, count: nat)
    requires dstOff + count <= dst.Length && srcOff + count <= |src|
    modifies dst
    ensures forall i :: 0 <= i < dst.Length ==>
      dst[i] == if dstOff <= i < dstOff + count then src[srcOff + (i - dstOff)] else old(dst[i])
  {
    for t := 0 to count
      invariant forall i :: 0 <= i < dst.Length ==>
        dst[i] == if dstOff <= i < dstOff + t then src[srcOff + (i - dstOff)] else old(dst[i])
    {
      dst[dstOff + t] := src[srcOff + t];
    }
  }
}
