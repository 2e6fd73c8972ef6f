/** Byte buffers that the kernel fills through pointers. */
module Buffers {
  import opened Words

  /** The sequence s with t written over it from index at. */
  function Patch<T>(s: seq<T>, at: nat, t: seq<T>): (r: seq<T>)
    requires at + |t| <= |s|
    ensures |r| == |s|
  {
    s[..at] + t + s[at + |t|..]
  }

  lemma PatchNothing<T>(s: seq<T>, at: nat)
    requires at <= |s|
    ensures Patch(s, at, []) == s
  {
  }

  lemma PatchWhole<T>(s: seq<T>, t: seq<T>)
    requires |t| == |s|
    ensures Patch(s, 0, t) == t
  {
  }

  lemma PatchPrefix<T>(s: seq<T>, at: nat, t: seq<T>)
    requires at + |t| <= |s|
    ensures Patch(s, at, t)[..at + |t|] == s[..at] + t
  {
  }

  /** Writing two pieces back to back is writing their concatenation. */
  lemma PatchAppend<T>(s: seq<T>, at: nat, t: seq<T>, u: seq<T>)
    requires at + |t| + |u| <= |s|
    ensures Patch(Patch(s, at, t), at + |t|, u) == Patch(s, at, t + u)
  {
  }

  /** kern/stdlib.c: memcpy. */
  method MemCpy<T>(dst: array<T>, at: nat, src: seq<T>)
    requires at + |src| <= dst.Length
    modifies dst
    ensures dst[..] == Patch(old(dst[..]), at, src)
  {
    var i := 0;
    while i < |src|
      invariant 0 <= i <= |src|
      invariant forall k :: 0 <= k < dst.Length ==>
                  dst[k] == if at <= k < at + i then src[k - at] else old(dst[k])
    {
      dst[at + i] := src[i];
      i := i + 1;
    }
  }

  /** krealloc as its callers see it: a block of the new size that keeps the
      bytes both sizes have in common. */
  method Realloc<T(0)>(buf: array<T>, size: nat, ghost keep: nat) returns (r: array<T>)
    requires keep <= size && keep <= buf.Length
    ensures fresh(r) && r.Length == size
    ensures r[..keep] == buf[..keep]
  {
    r := new T[size];
    var n := Min(size, buf.Length);
    MemCpy(r, 0, buf[..n]);
    assert r[..keep] == r[..][..keep] == buf[..keep];
  }

  function Reverse<T>(s: seq<T>): (r: seq<T>)
    ensures |r| == |s|
    ensures forall i :: 0 <= i < |s| ==> r[i] == s[|s| - 1 - i]
  {
    seq(|s|, i requires 0 <= i < |s| => s[|s| - 1 - i])
  }
}
