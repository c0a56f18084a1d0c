/** denseView: row-major strides for a dense buffer. */
module BufferViews {
  import opened MixedRadix
  import opened Strides
  import opened Builders

  method DenseStrides(extents: seq<int>) returns (strides: seq<int>)
    ensures strides == PackedStrides(extents)
  {
    var r := |extents|;
    var s := new int[r](_ => 1);
    var k := r;
    if r > 0 {
      PackedStridesAt(extents, r - 1);
    }
    while k > 1
      invariant 0 <= k <= r && (r > 0 ==> k >= 1) && s.Length == r
      invariant forall i :: 0 <= i < r && i >= k - 1 ==> s[i] == PackedStrides(extents)[i]
    {
      k := k - 1;
      PackedStridesAt(extents, k);
      PackedStridesAt(extents, k - 1);
      assert extents[k..][1..] == extents[k + 1..];
      s[k - 1] := s[k] * extents[k];
    }
    strides := s[..];
  }

  /** A dense view addresses its Product(extents) elements once each. */
  lemma DenseViewBijective(extents: seq<int>)
    requires Positive(extents)
    ensures Bijective(extents, PackedStrides(extents), Product(extents))
  {
    PackedBijective(extents);
  }
}
