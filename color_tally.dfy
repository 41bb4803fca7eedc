/**
 * What one scan of the majority-color extractor computes, stated on the
 * sequence of pixels: which colors are tallied and how often, which color
 * leads, and the final verdict. Each scan function describes the state after
 * the first `n` pixels, so a whole scan is the case n == |ps|.
 */
module ColorTally {
  import opened Options
  import opened Raster
  import opened HexColor

  /** How many tallied pixels show each composited color. */
  type Counts = map<Rgb, nat>

  /** The text the extractor rejects with. */
  const NoColorMessage: string := "No significant non-white color found in the image"

  /** The extractor's verdict: a `#rrggbb` color, or a rejection. */
  datatype Outcome = Resolved(hex: string) | Rejected(message: string)

  /** The running leader of a scan: the largest count so far and the color holding it. */
  datatype Leader = Leader(count: nat, color: Option<Rgb>)

  /** The count of a color, zero when it was never tallied. */
  function CountOf(m: Counts, c: Rgb): nat
  {
    if c in m then m[c] else 0
  }

  /** The composites of the eligible pixels among the first `n`, in scan order. */
  function EligibleColors(ps: seq<Pixel>, n: nat): (cs: seq<Rgb>)
    requires n <= |ps|
    ensures |cs| <= n
  {
    if n == 0 then []
    else EligibleColors(ps, n - 1) + (if Eligible(ps[n - 1]) then [CompositeOf(ps[n - 1])] else [])
  }

  /** The pixels among the first `n` that are eligible. */
  ghost function EligibleIndices(ps: seq<Pixel>, n: nat): set<nat>
    requires n <= |ps|
  {
    set i: nat | i < n && Eligible(ps[i])
  }

  /** One color is counted per eligible pixel: the total is the number of eligible pixels. */
  lemma {:induction false} EligibleColorsCount(ps: seq<Pixel>, n: nat)
    requires n <= |ps|
    ensures |EligibleColors(ps, n)| == |EligibleIndices(ps, n)|
  {
    if n > 0 {
      EligibleColorsCount(ps, n - 1);
      if Eligible(ps[n - 1]) {
        assert EligibleIndices(ps, n) == EligibleIndices(ps, n - 1) + {n - 1};
      } else {
        assert EligibleIndices(ps, n) == EligibleIndices(ps, n - 1);
      }
    }
  }

  /** The color tally after the first `n` pixels, built one pixel at a time. */
  function Tally(ps: seq<Pixel>, n: nat): (m: Counts)
    requires n <= |ps|
    ensures forall c :: c in m ==> m[c] >= 1
  {
    if n == 0 then map[]
    else
      var m := Tally(ps, n - 1);
      var p := ps[n - 1];
      if Eligible(p) then m[CompositeOf(p) := CountOf(m, CompositeOf(p)) + 1] else m
  }

  /**
   * The leader after the first `n` pixels: a color takes the lead only when
   * its count rises strictly above the leader's count.
   */
  function Lead(ps: seq<Pixel>, n: nat): (l: Leader)
    requires n <= |ps|
    ensures l.color.None? <==> l.count == 0
  {
    if n == 0 then Leader(0, None)
    else
      var l := Lead(ps, n - 1);
      var p := ps[n - 1];
      if !Eligible(p) then l
      else
        var k := CountOf(Tally(ps, n - 1), CompositeOf(p)) + 1;
        if k > l.count then Leader(k, Some(CompositeOf(p))) else l
  }

  /** The verdict: the leader's text when its count is above a tenth of the tallied pixels. */
  function Extract(ps: seq<Pixel>): (o: Outcome)
    ensures o.Rejected? ==> o == Rejected(NoColorMessage)
    ensures o.Resolved? ==> |o.hex| == 7 && o.hex[0] == '#'
  {
    var l := Lead(ps, |ps|);
    if l.color.Some? && 10 * l.count > |EligibleColors(ps, |ps|)| then Resolved(ToHex(l.color.value))
    else Rejected(NoColorMessage)
  }

  // ---------------------------------------------------------------------
  // One pixel at a time

  /** A pixel that is transparent or near white after compositing changes nothing. */
  lemma IneligiblePixelIgnored(ps: seq<Pixel>, n: nat)
    requires n < |ps| && !Eligible(ps[n])
    ensures Tally(ps, n + 1) == Tally(ps, n)
    ensures EligibleColors(ps, n + 1) == EligibleColors(ps, n)
    ensures Lead(ps, n + 1) == Lead(ps, n)
  {
  }

  /** A fully transparent pixel is neither tallied nor counted in the total. */
  lemma TransparentPixelIgnored(ps: seq<Pixel>, n: nat)
    requires n < |ps| && ps[n].a == 0
    ensures Tally(ps, n + 1) == Tally(ps, n)
    ensures |EligibleColors(ps, n + 1)| == |EligibleColors(ps, n)|
    ensures Lead(ps, n + 1) == Lead(ps, n)
  {
  }

  /**
   * A visible pixel with a composited channel at or below the cutoff adds
   * one to its color and to the total, and takes the lead exactly when its
   * new count is above the leader's.
   */
  lemma VisiblePixelCounted(ps: seq<Pixel>, n: nat)
    requires n < |ps| && ps[n].a != 0
    requires var c := CompositeOf(ps[n]); c.r <= WhiteCutoff || c.g <= WhiteCutoff || c.b <= WhiteCutoff
    ensures var c := CompositeOf(ps[n]); var k := CountOf(Tally(ps, n), c) + 1;
      && Tally(ps, n + 1) == Tally(ps, n)[c := k]
      && |EligibleColors(ps, n + 1)| == |EligibleColors(ps, n)| + 1
      && Lead(ps, n + 1) == if k > Lead(ps, n).count then Leader(k, Some(c)) else Lead(ps, n)
  {
  }

  // ---------------------------------------------------------------------
  // The tally

  /** Each entry of the tally is the number of eligible pixels compositing to that color. */
  lemma {:induction false} TallyIsMultiset(ps: seq<Pixel>, n: nat, c: Rgb)
    requires n <= |ps|
    ensures CountOf(Tally(ps, n), c) == multiset(EligibleColors(ps, n))[c]
  {
    if n > 0 {
      TallyIsMultiset(ps, n - 1, c);
    }
  }

  /** A color is a key of the tally exactly when some eligible pixel scanned so far composites to it. */
  lemma {:induction false} TallyKeys(ps: seq<Pixel>, n: nat, c: Rgb)
    requires n <= |ps|
    ensures c in Tally(ps, n) <==> exists i :: 0 <= i < n && Eligible(ps[i]) && CompositeOf(ps[i]) == c
  {
    if n > 0 {
      TallyKeys(ps, n - 1, c);
    }
  }

  /** Some key of a non-empty tally. */
  ghost function AnyKey(m: Counts): (k: Rgb)
    requires m != map[]
    ensures k in m
  {
    var k :| k in m; k
  }

  /** The sum of all counts of a tally. */
  ghost function SumCounts(m: Counts): nat
    decreases |m|
  {
    if m == map[] then 0
    else
      var k := AnyKey(m);
      assert |m - {k}| < |m| by { assert (m - {k}).Keys == m.Keys - {k}; }
      m[k] + SumCounts(m - {k})
  }

  /** The sum may be taken starting from any key. */
  lemma {:induction false} SumCountsRemove(m: Counts, k: Rgb)
    requires k in m
    ensures SumCounts(m) == m[k] + SumCounts(m - {k})
    decreases |m|
  {
    var k' := AnyKey(m);
    if k' != k {
      assert |m - {k'}| < |m| by { assert (m - {k'}).Keys == m.Keys - {k'}; }
      assert |m - {k}| < |m| by { assert (m - {k}).Keys == m.Keys - {k}; }
      SumCountsRemove(m - {k'}, k);
      SumCountsRemove(m - {k}, k');
      assert m - {k'} - {k} == m - {k} - {k'};
    }
  }

  /** Counting one more pixel of a color adds one to the sum. */
  lemma SumCountsIncrement(m: Counts, c: Rgb)
    ensures SumCounts(m[c := CountOf(m, c) + 1]) == SumCounts(m) + 1
  {
    var m' := m[c := CountOf(m, c) + 1];
    SumCountsRemove(m', c);
    assert m' - {c} == m - {c};
    if c in m {
      SumCountsRemove(m, c);
    } else {
      assert m - {c} == m;
    }
  }

  /** The counts of the tally add up to the number of tallied pixels. */
  lemma {:induction false} TallySumIsTotal(ps: seq<Pixel>, n: nat)
    requires n <= |ps|
    ensures SumCounts(Tally(ps, n)) == |EligibleColors(ps, n)|
  {
    if n > 0 {
      TallySumIsTotal(ps, n - 1);
      if Eligible(ps[n - 1]) {
        SumCountsIncrement(Tally(ps, n - 1), CompositeOf(ps[n - 1]));
      }
    }
  }

  /** Counts only grow as the scan goes on. */
  lemma {:induction false} TallyGrows(ps: seq<Pixel>, k: nat, n: nat, c: Rgb)
    requires k <= n <= |ps|
    ensures CountOf(Tally(ps, k), c) <= CountOf(Tally(ps, n), c)
  {
    if k < n {
      TallyGrows(ps, k, n - 1, c);
    }
  }

  // ---------------------------------------------------------------------
  // The leader

  /**
   * At every step the leader's count is the largest count of the tally (0
   * while it is empty), there is a leading color exactly when the tally is
   * not empty, and that color holds the leader's count.
   */
  lemma {:induction false} LeadIsMaximum(ps: seq<Pixel>, n: nat)
    requires n <= |ps|
    ensures forall c :: c in Tally(ps, n) ==> Tally(ps, n)[c] <= Lead(ps, n).count
    ensures Lead(ps, n).color.None? <==> Tally(ps, n) == map[]
    ensures Lead(ps, n).color.Some? ==>
      Lead(ps, n).color.value in Tally(ps, n) && Tally(ps, n)[Lead(ps, n).color.value] == Lead(ps, n).count
    ensures Tally(ps, n) == map[] ==> Lead(ps, n).count == 0
  {
    if n > 0 {
      LeadIsMaximum(ps, n - 1);
    }
  }

  /** The leader's count never decreases as the scan goes on. */
  lemma {:induction false} LeadNeverDecreases(ps: seq<Pixel>, k: nat, n: nat)
    requires k <= n <= |ps|
    ensures Lead(ps, k).count <= Lead(ps, n).count
  {
    if k < n {
      LeadNeverDecreases(ps, k, n - 1);
    }
  }

  /** Every count of a tally is below `v`. */
  ghost predicate AllBelow(m: Counts, v: nat)
  {
    forall d :: d in m ==> m[d] < v
  }

  /**
   * After the first `j` pixels color `c` has count `v`, and no color had
   * count `v` after fewer pixels: `c` is the first color, in scan order,
   * whose running count reached `v`.
   */
  ghost predicate FirstReachedAt(ps: seq<Pixel>, j: nat, c: Rgb, v: nat)
  {
    && 0 < j <= |ps|
    && c in Tally(ps, j) && Tally(ps, j)[c] == v
    && forall i :: 0 <= i < j ==> AllBelow(Tally(ps, i), v)
  }

  /** The leader is the first color whose running count reached the leading count. */
  lemma {:induction false} LeadFirstToReach(ps: seq<Pixel>, n: nat)
    requires n <= |ps| && Lead(ps, n).color.Some?
    ensures exists j: nat :: j <= n && FirstReachedAt(ps, j, Lead(ps, n).color.value, Lead(ps, n).count)
  {
    assert n > 0;
    var l := Lead(ps, n - 1);
    var p := ps[n - 1];
    if !Eligible(p) || CountOf(Tally(ps, n - 1), CompositeOf(p)) + 1 <= l.count {
      assert Lead(ps, n) == l;
      LeadFirstToReach(ps, n - 1);
    } else {
      var c := CompositeOf(p);
      var v := CountOf(Tally(ps, n - 1), c) + 1;
      assert Lead(ps, n) == Leader(v, Some(c));
      LeadIsMaximum(ps, n - 1);
      forall i | 0 <= i < n
        ensures AllBelow(Tally(ps, i), v)
      {
        forall d | d in Tally(ps, i)
          ensures Tally(ps, i)[d] < v
        {
          TallyGrows(ps, i, n - 1, d);
        }
      }
      assert Tally(ps, n) == Tally(ps, n - 1)[c := v];
      assert FirstReachedAt(ps, n, c, v);
    }
  }

  /** Only one color can be the first to reach a count. */
  lemma FirstReachUnique(ps: seq<Pixel>, j1: nat, c1: Rgb, j2: nat, c2: Rgb, v: nat)
    requires FirstReachedAt(ps, j1, c1, v) && FirstReachedAt(ps, j2, c2, v)
    ensures j1 == j2 && c1 == c2
  {
    assert AllBelow(Tally(ps, j1 - 1), v);
  }

  /**
   * Tie-break: a color that was the first to reach the leading count is the
   * leader; a color that only ties later never displaces it.
   */
  lemma TieBreak(ps: seq<Pixel>, n: nat, c: Rgb, j: nat)
    requires n <= |ps| && Lead(ps, n).color.Some?
    requires FirstReachedAt(ps, j, c, Lead(ps, n).count)
    ensures Lead(ps, n).color == Some(c)
  {
    LeadFirstToReach(ps, n);
    var j': nat :| j' <= n && FirstReachedAt(ps, j', Lead(ps, n).color.value, Lead(ps, n).count);
    FirstReachUnique(ps, j, c, j', Lead(ps, n).color.value, Lead(ps, n).count);
  }

  // ---------------------------------------------------------------------
  // The verdict

  /** The scan succeeds exactly when some color holds more than a tenth of the tallied pixels. */
  lemma ExtractResolvesIffSignificant(ps: seq<Pixel>)
    ensures Extract(ps).Resolved? <==>
      exists c :: c in Tally(ps, |ps|) && 10 * Tally(ps, |ps|)[c] > |EligibleColors(ps, |ps|)|
    ensures !Extract(ps).Resolved? ==> Extract(ps) == Rejected(NoColorMessage)
  {
    var l := Lead(ps, |ps|);
    LeadIsMaximum(ps, |ps|);
    if l.color.Some? && 10 * l.count > |EligibleColors(ps, |ps|)| {
      assert l.color.value in Tally(ps, |ps|);
    }
  }

  /**
   * On success the text is that of a most frequent color above the
   * threshold, the first in scan order to reach its count.
   */
  lemma ExtractWinner(ps: seq<Pixel>)
    requires Extract(ps).Resolved?
    ensures exists c, j: nat ::
      && Extract(ps).hex == ToHex(c)
      && c in Tally(ps, |ps|)
      && (forall d :: d in Tally(ps, |ps|) ==> Tally(ps, |ps|)[d] <= Tally(ps, |ps|)[c])
      && 10 * Tally(ps, |ps|)[c] > |EligibleColors(ps, |ps|)|
      && FirstReachedAt(ps, j, c, Tally(ps, |ps|)[c])
  {
    LeadIsMaximum(ps, |ps|);
    LeadFirstToReach(ps, |ps|);
  }

  /** With no eligible pixel at all the scan rejects. */
  lemma NoEligiblePixelRejects(ps: seq<Pixel>)
    requires forall i :: 0 <= i < |ps| ==> !Eligible(ps[i])
    ensures Extract(ps) == Rejected(NoColorMessage)
  {
    forall c | true
      ensures c !in Tally(ps, |ps|)
    {
      TallyKeys(ps, |ps|, c);
    }
    assert Tally(ps, |ps|) == map[];
    LeadIsMaximum(ps, |ps|);
  }

  /** An image whose every pixel is fully transparent is rejected. */
  lemma AllTransparentRejects(ps: seq<Pixel>)
    requires forall i :: 0 <= i < |ps| ==> ps[i].a == 0
    ensures Extract(ps) == Rejected(NoColorMessage)
  {
    NoEligiblePixelRejects(ps);
  }

  /** An image whose every pixel composites to near white is rejected. */
  lemma AllNearWhiteRejects(ps: seq<Pixel>)
    requires forall i :: 0 <= i < |ps| ==> NearWhite(CompositeOf(ps[i]))
    ensures Extract(ps) == Rejected(NoColorMessage)
  {
    NoEligiblePixelRejects(ps);
  }
}
