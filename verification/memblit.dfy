/** kern/stdlib.c: memblit. */
module MemBlit {
  import opened Words
  import opened Buffers

  /** Byte k is on one of the lines [top, bottom) and in the columns [left, right). */
  predicate InRect(k: nat, stride: nat, left: nat, right: nat, top: nat, bottom: nat)
    requires stride > 0
  {
    top <= k / stride < bottom && left <= k % stride < right
  }

  /** A run of bytes within one line. */
  lemma InLine(k: nat, stride: nat, line: nat, left: nat, right: nat)
    requires left <= right <= stride && stride > 0
    ensures line * stride + left <= k < line * stride + right
            <==> (k / stride == line && left <= k % stride < right)
  {
    if line * stride + left <= k < line * stride + right {
      DivUnique(k, stride, line, k - line * stride);
    }
  }

  /** dst with the rectangle of src in it. */
  ghost predicate Blitted(now: seq<Byte>, was: seq<Byte>, src: seq<Byte>,
                          stride: nat, left: nat, right: nat, top: nat, bottom: nat)
    requires stride > 0
  {
    |now| == |was| == |src|
    && forall k: nat :: k < |now| ==>
         now[k] == if InRect(k, stride, left, right, top, bottom) then src[k] else was[k]
  }

  lemma BlitLine(now: seq<Byte>, was: seq<Byte>, src: seq<Byte>,
                 stride: nat, left: nat, right: nat, top: nat, line: nat)
    requires left <= right <= stride && stride > 0 && top <= line
    requires Blitted(now, was, src, stride, left, right, top, line)
    requires 0 <= line * stride && line * stride + right <= |now|
    ensures var at := line * stride + left;
            Blitted(Patch(now, at, src[at..at + (right - left)]), was, src, stride, left, right, top, line + 1)
  {
    var at := line * stride + left;
    var next := Patch(now, at, src[at..at + (right - left)]);
    forall k: nat | k < |next|
      ensures next[k] == if InRect(k, stride, left, right, top, line + 1) then src[k] else was[k]
    {
      InLine(k, stride, line, left, right);
    }
  }

  lemma NoneBlitted(was: seq<Byte>, src: seq<Byte>, stride: nat, left: nat, right: nat, top: nat)
    requires stride > 0 && |was| == |src|
    ensures Blitted(was, was, src, stride, left, right, top, top)
  {
  }

  /** memblit, of a rectangle within the buffer: the bytes of its elements are
      copied, and no others. */
  method MemBlit(dst: array<Byte>, src: seq<Byte>, bufWidth: nat, bufHeight: nat, elSize: nat,
                 x: nat, y: nat, width: nat, height: nat)
    requires x + width <= bufWidth && y + height <= bufHeight && bufWidth * elSize > 0
    requires |src| == dst.Length == bufHeight * (bufWidth * elSize)
    modifies dst
    ensures 0 <= x * elSize <= (x + width) * elSize
    ensures Blitted(dst[..], old(dst[..]), src, bufWidth * elSize, x * elSize, (x + width) * elSize, y, y + height)
  {
    var stride := bufWidth * elSize;
    var offset := x * elSize + y * stride;
    var len := width * elSize;
    MulMono(0, x, elSize);
    MulMono(x, x + width, elSize);
    MulMono(x + width, bufWidth, elSize);
    Distribute(x, width, elSize);
    MulMono(0, y, stride);
    ghost var left, right := x * elSize, (x + width) * elSize;
    NoneBlitted(dst[..], src, stride, left, right, y);
    hide Blitted, Patch, InRect;
    var p := offset;
    var i := 0;
    while i < height
      invariant 0 <= i <= height && p == (y + i) * stride + left
      invariant Blitted(dst[..], old(dst[..]), src, stride, left, right, y, y + i)
    {
      MulMono(0, y + i, stride);
      MulMono(y + i + 1, bufHeight, stride);
      Distribute(y + i, 1, stride);
      BlitLine(dst[..], old(dst[..]), src, stride, left, right, y, y + i);
      assert p == (y + i) * stride + left && len == right - left;
      MemCpy(dst, p, src[p..p + len]);
      p := p + stride;
      i := i + 1;
    }
  }
}
