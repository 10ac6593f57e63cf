/**
 The one place where a caller's (offset, size) pair meets the size of an asset. Offsets and sizes are
 64-bit unsigned numbers; the sum of the two is never formed before it is known to fit.
 */
module RangeMath {

  const MAX_U64: nat := 0xFFFF_FFFF_FFFF_FFFF

  type u64 = n: int | 0 <= n <= MAX_U64

  datatype Range =
    | Overflow
    | Empty
    | Transfer(offset: u64, length: u64)

  function ResolveReadRange(offset: u64, size: u64, assetSize: u64): Range {
    if offset > MAX_U64 - size then Overflow
    else if size == 0 || offset >= assetSize then Empty
    else
      var remaining := assetSize - offset;
      Transfer(offset, if remaining < size then remaining else size)
  }

  /** The bytes a plain read of `asset` returns: the asked-for range cut off at the end of the asset. */
  function PlainRead(asset: seq<int>, offset: nat, size: nat): seq<int> {
    if offset >= |asset| then []
    else if offset + size >= |asset| then asset[offset..]
    else asset[offset..offset + size]
  }

  /**
   A resolved range is exactly the slice a plain read returns, is never empty, ends inside the asset
   and never wraps; `Overflow` is reported only for a sum that does not fit in 64 bits.
   */
  lemma ResolvedRangeIsPlainRead(asset: seq<int>, offset: u64, size: u64)
    requires |asset| <= MAX_U64
    ensures var r := ResolveReadRange(offset, size, |asset|);
            && (r.Overflow? <==> offset + size > MAX_U64)
            && (r.Empty? ==> PlainRead(asset, offset, size) == [])
            && (r.Transfer? ==>
                  && 0 < r.length <= size && r.offset + r.length <= |asset|
                  && asset[r.offset..r.offset + r.length] == PlainRead(asset, offset, size))
  {
    if offset < |asset| && offset + size >= |asset| {
      assert asset[offset..] == asset[offset..|asset|];
    }
  }
}
