/**
 How the blocks that cover a range tile it, and what copying the covered part of a true block does
 to the destination.
 */
module ReadGeometry {
  import opened Basics
  import opened Arithmetic
  import opened Stripes
  import opened BlockPlan
  import opened CachedRead

  lemma QuotientBounds(n: nat, d: nat)
    requires 0 < d
    ensures (n / d) * d <= n < (n / d) * d + d
  {
  }

  lemma NextBlock(b: nat, size: nat)
    ensures (b + 1) * size == b * size + size
  {
  }

  /** Where the covered part of the `i`-th block begins; the covered part of the previous one ends there. */
  function Cut(p: Params, i: nat): nat
    requires p.Legal()
  {
    if i == 0 then p.offset
    else if i >= p.Count() then p.offset + p.length
    else StartOf(p.First() + i, p.policy.blockSize)
  }

  /** The blocks of the span tile the range, and each covered part lies inside its block. */
  lemma BlockTiles(p: Params, i: nat)
    requires p.Legal() && i < p.Count()
    ensures var b := p.First() + i;
            && p.Begin(b) == Cut(p, i) && p.End(b) == Cut(p, i + 1)
            && p.Extent(b).offset == StartOf(b, p.policy.blockSize) <= Cut(p, i) < Cut(p, i + 1)
            && Cut(p, i + 1) <= EndOf(b, p.policy.blockSize, p.policy.assetSize) <= p.policy.assetSize
            && p.Extent(b).offset < p.policy.assetSize
            && Overlap(p, b) == Cut(p, i + 1) - Cut(p, i)
  {
    var size, first, last, b := p.policy.blockSize, p.First(), p.Last(), p.First() + i;
    QuotientBounds(p.offset, size);
    QuotientBounds(p.offset + p.length - 1, size);
    NextBlock(b, size);
    NextBlock(first, size);
    if i > 0 { ProductMonotone(first + 1, b, size); }
    if b < last { ProductMonotone(b + 1, last, size); }
  }

  lemma CutInRange(p: Params, i: nat)
    requires p.Legal() && i <= p.Count()
    ensures p.offset <= Cut(p, i) <= p.offset + p.length
    decreases i
  {
    if i > 0 {
      BlockTiles(p, i - 1);
      CutInRange(p, i - 1);
      if i < p.Count() { CutBeforeEnd(p, i); }
    }
  }

  lemma CutBeforeEnd(p: Params, i: nat)
    requires p.Legal() && i < p.Count()
    ensures Cut(p, i) < p.offset + p.length
    decreases p.Count() - i
  {
    BlockTiles(p, i);
    if i + 1 < p.Count() { CutBeforeEnd(p, i + 1); }
  }

  lemma CutsAscend(p: Params, i: nat, j: nat)
    requires p.Legal() && i <= j <= p.Count()
    ensures Cut(p, i) <= Cut(p, j)
    decreases j - i
  {
    if i < j {
      BlockTiles(p, i);
      CutsAscend(p, i + 1, j);
    }
  }

  // ----- bytes -------------------------------------------------------------

  /** The destination holds the true bytes wherever the `i`-th block is covered. */
  ghost predicate Right(w: World, p: Params, dst: seq<byte>, i: nat)
    requires LegalRead(w, p) && i < p.Count() && |dst| == p.length
  {
    CutInRange(p, i);
    CutInRange(p, i + 1);
    CutsAscend(p, i, i + 1);
    dst[Cut(p, i) - p.offset..Cut(p, i + 1) - p.offset] == w.content(p.id)[Cut(p, i)..Cut(p, i + 1)]
  }

  /** An overlay sets its own window and leaves every window beside it alone. */
  lemma OverlayWindows(dst: seq<byte>, at: nat, src: seq<byte>, a: nat, b: nat)
    requires at + |src| <= |dst| && a <= b <= |dst|
    ensures var r := Overlaid(dst, at, src);
            && |r| == |dst| && r[at..at + |src|] == src
            && (b <= at || at + |src| <= a ==> r[a..b] == dst[a..b])
  {
  }

  /** The bounds of two different blocks, as plain numbers. */
  lemma WindowsApart(p: Params, i: nat, j: nat)
    requires p.Legal() && i < p.Count() && j < p.Count()
    ensures p.offset <= Cut(p, i) <= Cut(p, i + 1) <= p.offset + p.length
    ensures p.offset <= Cut(p, j) <= Cut(p, j + 1) <= p.offset + p.length
    ensures i != j ==> Cut(p, j + 1) <= Cut(p, i) || Cut(p, i + 1) <= Cut(p, j)
  {
    CutInRange(p, i);
    CutInRange(p, i + 1);
    CutsAscend(p, i, i + 1);
    CutInRange(p, j);
    CutInRange(p, j + 1);
    CutsAscend(p, j, j + 1);
    if j < i { CutsAscend(p, j + 1, i); }
    if i < j { CutsAscend(p, i + 1, j); }
  }

  /** Overlaying the true bytes of one block makes that block right and disturbs no other. */
  lemma OverlayTrueBytes(w: World, p: Params, dst: seq<byte>, i: nat, j: nat)
    requires LegalRead(w, p) && i < p.Count() && j < p.Count() && |dst| == p.length
    ensures var r := Overlaid(dst, Cut(p, i) - p.offset, Slice(w.content(p.id), Cut(p, i), Cut(p, i + 1)));
            && |r| == |dst|
            && Right(w, p, r, i)
            && (j != i && Right(w, p, dst, j) ==> Right(w, p, r, j))
  {
    hide CoveringBlocks, StartOf, ExtentOf, Cut, Overlaid, Params.Begin, Params.End, Overlap;
    WindowsApart(p, i, j);
    var src := Slice(w.content(p.id), Cut(p, i), Cut(p, i + 1));
    OverlayWindows(dst, Cut(p, i) - p.offset, src, Cut(p, j) - p.offset, Cut(p, j + 1) - p.offset);
  }

  lemma SliceOfSlice(s: seq<byte>, at: nat, n: nat, a: nat, b: nat)
    requires at + n <= |s| && at <= a <= b <= at + n
    ensures Slice(s[at..at + n], a - at, b - at) == Slice(s, a, b)
  {
    var window := s[at..at + n];
    var part := window[a - at..b - at];
    assert forall k :: 0 <= k < b - a ==> part[k] == s[a..b][k];
    assert window[a - at..b - at] == s[a..b];
  }

  /** Copying the covered part out of a true block of the length this reader expects is that overlay. */
  lemma CopiedIsOverlay(w: World, p: Params, dst: seq<byte>, i: nat, bytes: seq<byte>)
    requires LegalRead(w, p) && i < p.Count() && |dst| == p.length
    requires TrueBlock(w, p.KeyOf(p.First() + i), bytes) && |bytes| == p.Extent(p.First() + i).length
    ensures Copied(p, dst, p.First() + i, bytes)
         == Overlaid(dst, Cut(p, i) - p.offset, Slice(w.content(p.id), Cut(p, i), Cut(p, i + 1)))
  {
    hide CoveringBlocks, StartOf, ExtentOf, Cut, Params.Begin, Params.End, Overlaid, Slice, Overlap;
    BlockTiles(p, i);
    SliceOfSlice(w.content(p.id), p.Extent(p.First() + i).offset, |bytes|, Cut(p, i), Cut(p, i + 1));
  }

  /** When every block is right the destination is exactly the range. */
  lemma {:induction false} AllRight(w: World, p: Params, dst: seq<byte>, n: nat)
    requires LegalRead(w, p) && |dst| == p.length && n <= p.Count()
    requires forall i :: 0 <= i < n ==> Right(w, p, dst, i)
    ensures p.offset <= Cut(p, n) <= p.offset + p.length
    ensures dst[..Cut(p, n) - p.offset] == w.content(p.id)[p.offset..Cut(p, n)]
  {
    CutInRange(p, n);
    if n > 0 {
      AllRight(w, p, dst, n - 1);
      assert Right(w, p, dst, n - 1);
      var a, b := Cut(p, n - 1), Cut(p, n);
      CutsAscend(p, n - 1, n);
      assert dst[..b - p.offset] == dst[..a - p.offset] + dst[a - p.offset..b - p.offset];
      assert w.content(p.id)[p.offset..b] == w.content(p.id)[p.offset..a] + w.content(p.id)[a..b];
    }
  }

  // ----- sums over resolved blocks -----------------------------------------

  /** Covered bytes of the resolved blocks among the first `n`. */
  function ServedBytes(p: Params, resolved: seq<bool>, n: nat): nat
    requires p.Legal() && n <= |resolved|
  {
    if n == 0 then 0
    else ServedBytes(p, resolved, n - 1) + (if resolved[n - 1] then Overlap(p, p.First() + n - 1) else 0)
  }

  function CountResolved(resolved: seq<bool>, n: nat): nat
    requires n <= |resolved|
  {
    if n == 0 then 0 else CountResolved(resolved, n - 1) + (if resolved[n - 1] then 1 else 0)
  }

  lemma {:induction false} ResolveOne(p: Params, resolved: seq<bool>, i: nat, n: nat)
    requires p.Legal() && i < |resolved| && n <= |resolved| && !resolved[i]
    ensures ServedBytes(p, resolved[i := true], n)
         == ServedBytes(p, resolved, n) + (if i < n then Overlap(p, p.First() + i) else 0)
    ensures CountResolved(resolved[i := true], n) == CountResolved(resolved, n) + (if i < n then 1 else 0)
  {
    if n > 0 { ResolveOne(p, resolved, i, n - 1); }
  }

  lemma {:induction false} AllResolved(p: Params, resolved: seq<bool>, n: nat)
    requires p.Legal() && n <= |resolved| && n <= p.Count()
    requires forall i :: 0 <= i < n ==> resolved[i]
    ensures ServedBytes(p, resolved, n) == Cut(p, n) - p.offset && CountResolved(resolved, n) == n
  {
    hide CoveringBlocks, StartOf, ExtentOf, EndOf, Overlap;
    if n > 0 {
      AllResolved(p, resolved, n - 1);
      BlockTiles(p, n - 1);
    }
  }

  lemma {:induction false} NoneResolved(p: Params, resolved: seq<bool>, n: nat)
    requires p.Legal() && n <= |resolved|
    requires forall i :: 0 <= i < n ==> !resolved[i]
    ensures ServedBytes(p, resolved, n) == 0 && CountResolved(resolved, n) == 0
  {
    if n > 0 { NoneResolved(p, resolved, n - 1); }
  }
}
