/**
 * The majority-color scan over a decoded RGBA buffer: one pass that
 * composites, filters and tallies, then the threshold test and the text.
 */
module Extractor {
  import opened Options
  import opened Raster
  import opened HexColor
  import opened ColorTally

  /**
   * Scans the canvas buffer `data` (four channels per pixel, in row-major
   * order) and resolves with the `#rrggbb` text of the majority color, or
   * rejects when no color holds more than a tenth of the tallied pixels.
   */
  method GetMajorityColor(data: seq<Byte>) returns (outcome: Outcome)
    requires |data| % 4 == 0
    ensures outcome == Extract(Pixels(data))
  {
    ghost var ps := Pixels(data);
    var colorCounts: map<Rgb, nat> := map[];
    var totalNonWhitePixels: nat := 0;
    var maxCount: nat := 0;
    var majorityColor: Option<Rgb> := None;

    var i := 0;
    ghost var n := 0;
    while i < |data|
      invariant i == 4 * n && 0 <= n <= |ps|
      invariant colorCounts == Tally(ps, n)
      invariant totalNonWhitePixels == |EligibleColors(ps, n)|
      invariant maxCount == Lead(ps, n).count && majorityColor == Lead(ps, n).color
    {
      var r, g, b, a := data[i], data[i + 1], data[i + 2], data[i + 3];
      PixelAt(data, n);
      if a != 0 {
        // Blend onto white.
        var r2, g2, b2 := Blend(r, a), Blend(g, a), Blend(b, a);
        assert CompositeOf(ps[n]) == Rgb(r2, g2, b2);
        // Skip white and very light pixels.
        if !(r2 > WhiteCutoff && g2 > WhiteCutoff && b2 > WhiteCutoff) {
          var rgb := Rgb(r2, g2, b2);
          VisiblePixelCounted(ps, n);
          // An absent color reads as undefined, which is falsy, as is a zero count.
          var count := if rgb in colorCounts && colorCounts[rgb] != 0 then colorCounts[rgb] + 1 else 1;
          assert count == CountOf(Tally(ps, n), rgb) + 1;
          colorCounts := colorCounts[rgb := count];
          if count > maxCount {
            maxCount := count;
            majorityColor := Some(rgb);
          }
          totalNonWhitePixels := totalNonWhitePixels + 1;
        } else {
          IneligiblePixelIgnored(ps, n);
        }
      } else {
        IneligiblePixelIgnored(ps, n);
      }
      i := i + 4;
      n := n + 1;
    }
    assert n == |ps|;

    if majorityColor.Some? && 10 * maxCount > totalNonWhitePixels {
      outcome := Resolved(ToHex(majorityColor.value));
    } else {
      outcome := Rejected(NoColorMessage);
    }
  }
}
