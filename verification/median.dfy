/**
 * The "median colour" threshold the image and GIF renderers binarise with: a 256-bucket
 * histogram of pixel brightness, each pixel adding its weight to its bucket, then a
 * left-to-right scan for the first bucket at which the running sum reaches a threshold.
 * Bucket 0, or no bucket at all, gives 1, so the threshold is never 0.
 */
module Median {
  import opened Bits

  /** One pixel's contribution: its brightness bucket and its weight. */
  datatype Sample = Sample(bucket: nat, weight: nat)

  /** The total weight of the samples that fall in bucket `v`. */
  function Hist(samples: seq<Sample>, v: nat): (r: nat)
    ensures r <= Total(samples)
  {
    if |samples| == 0 then 0
    else
      var last := samples[|samples| - 1];
      Hist(samples[..|samples| - 1], v) + (if last.bucket == v then last.weight else 0)
  }

  function Total(samples: seq<Sample>): nat {
    if |samples| == 0 then 0 else Total(samples[..|samples| - 1]) + samples[|samples| - 1].weight
  }

  /** Every bucket is a valid index into the 256-entry histogram. */
  predicate Buckets(samples: seq<Sample>) {
    forall i :: 0 <= i < |samples| ==> samples[i].bucket < 256
  }

  /** The histogram loop: start from 256 zeros and add every sample's weight to its
      bucket (`colors[avg] += weight`). */
  method Histogram(samples: seq<Sample>) returns (colors: seq<nat>)
    requires Buckets(samples)
    ensures |colors| == 256
    ensures forall v :: 0 <= v < 256 ==> colors[v] == Hist(samples, v)
  {
    colors := seq(256, _ => 0);
    var i := 0;
    while i < |samples|
      invariant 0 <= i <= |samples| && |colors| == 256
      invariant forall v :: 0 <= v < 256 ==> colors[v] == Hist(samples[..i], v)
    {
      assert samples[..i + 1][..i] == samples[..i];
      var s := samples[i];
      colors := colors[s.bucket := colors[s.bucket] + s.weight];
      i := i + 1;
    }
    assert samples[..|samples|] == samples;
  }

  /** The sum of the first `n` entries. */
  function Prefix(ws: seq<nat>, n: nat): nat
    requires n <= |ws|
  {
    if n == 0 then 0 else Prefix(ws, n - 1) + ws[n - 1]
  }

  lemma {:induction false} PrefixMonotone(ws: seq<nat>, a: nat, b: nat)
    requires a <= b <= |ws|
    ensures Prefix(ws, a) <= Prefix(ws, b)
    decreases b
  {
    if a < b {
      PrefixMonotone(ws, a, b - 1);
    }
  }

  lemma {:induction false} PrefixUpdate(ws: seq<nat>, b: nat, w: nat, n: nat)
    requires b < |ws| && n <= |ws|
    ensures Prefix(ws[b := ws[b] + w], n) == Prefix(ws, n) + (if b < n then w else 0)
  {
    if n > 0 {
      PrefixUpdate(ws, b, w, n - 1);
    }
  }

  lemma {:induction false} PrefixZero(ws: seq<nat>, n: nat)
    requires n <= |ws| && forall i :: 0 <= i < |ws| ==> ws[i] == 0
    ensures Prefix(ws, n) == 0
  {
    if n > 0 {
      PrefixZero(ws, n - 1);
    }
  }

  /** The histogram as a 256-entry sequence. */
  function Buckets256(samples: seq<Sample>): (r: seq<nat>)
    ensures |r| == 256
  {
    seq(256, v requires 0 <= v < 256 => Hist(samples, v))
  }

  /** The histogram accounts for every unit of weight: its 256 buckets add up to the
      total weight of the samples. */
  lemma {:induction false} HistogramAccountsAll(samples: seq<Sample>)
    requires Buckets(samples)
    ensures Prefix(Buckets256(samples), 256) == Total(samples)
  {
    if |samples| > 0 {
      var init := samples[..|samples| - 1];
      var last := samples[|samples| - 1];
      assert Buckets(init) by {
        forall i | 0 <= i < |init| ensures init[i].bucket < 256 {
          assert init[i] == samples[i];
        }
      }
      HistogramAccountsAll(init);
      var before := Buckets256(init);
      assert Buckets256(samples) == before[last.bucket := before[last.bucket] + last.weight];
      PrefixUpdate(before, last.bucket, last.weight, 256);
    } else {
      PrefixZero(Buckets256(samples), 256);
    }
  }

  /** The scan from bucket `v` on, with `sum` the running total so far. */
  function Scan(ws: seq<nat>, threshold: nat, v: nat, sum: nat): (r: nat)
    requires v <= |ws|
    ensures r == 1 || (v <= r < |ws| && r >= 1)
    decreases |ws| - v
  {
    if v == |ws| then 1
    else if sum + ws[v] >= threshold then (if v == 0 then 1 else v)
    else Scan(ws, threshold, v + 1, sum + ws[v])
  }

  /** The median colour: the first bucket whose cumulative count reaches the threshold,
      with 0 and "never reached" both giving 1. */
  function MedianOf(ws: seq<nat>, threshold: nat): (r: Byte)
    requires |ws| == 256
    ensures 1 <= r <= 255
  {
    Scan(ws, threshold, 0, 0)
  }

  /** The enumerate loop with its early return, as the renderers write it. */
  method MedianLoop(ws: seq<nat>, threshold: nat) returns (r: Byte)
    requires |ws| == 256
    ensures r == MedianOf(ws, threshold)
  {
    var sum := 0;
    var v := 0;
    while v < |ws|
      invariant 0 <= v <= |ws| && sum == Prefix(ws, v)
      invariant Scan(ws, threshold, v, sum) == MedianOf(ws, threshold)
    {
      sum := sum + ws[v];
      if sum >= threshold {
        return if v == 0 then 1 else v;
      }
      v := v + 1;
    }
    return 1;
  }

  /** The scan stops at the first bucket that reaches the threshold. */
  lemma {:induction false} ScanFinds(ws: seq<nat>, threshold: nat, v: nat, u: nat)
    requires v <= u < |ws|
    requires u == 0 || Prefix(ws, u) < threshold
    requires threshold <= Prefix(ws, u + 1)
    ensures Scan(ws, threshold, v, Prefix(ws, v)) == (if u == 0 then 1 else u)
    decreases u - v
  {
    if v < u {
      PrefixMonotone(ws, v + 1, u);
      ScanFinds(ws, threshold, v + 1, u);
    }
  }

  /** What the scan's result says about the running sums. */
  lemma {:induction false} ScanSound(ws: seq<nat>, threshold: nat, v: nat)
    requires 2 <= |ws| && v <= |ws|
    requires v == 0 || Prefix(ws, v) < threshold
    ensures var r := Scan(ws, threshold, v, Prefix(ws, v));
      (r >= 2 ==> r < |ws| && Prefix(ws, r) < threshold <= Prefix(ws, r + 1)) &&
      (r == 1 ==> threshold <= Prefix(ws, 2) || Prefix(ws, |ws|) < threshold)
    decreases |ws| - v
  {
    if v < |ws| {
      if Prefix(ws, v) + ws[v] >= threshold {
        if v <= 1 {
          PrefixMonotone(ws, v + 1, 2);
        }
      } else {
        ScanSound(ws, threshold, v + 1);
      }
    }
  }

  /** The median is exactly the first bucket at which the cumulative count reaches the
      threshold: bucket `v >= 2` is the answer iff the sum before it falls short and the
      sum through it reaches; 1 is the answer iff the threshold is reached by bucket 1,
      or never. */
  lemma MedianIff(ws: seq<nat>, threshold: nat)
    requires |ws| == 256
    ensures forall v :: 2 <= v < 256 ==>
      (MedianOf(ws, threshold) == v <==> Prefix(ws, v) < threshold <= Prefix(ws, v + 1))
    ensures MedianOf(ws, threshold) == 1 <==> threshold <= Prefix(ws, 2) || Prefix(ws, 256) < threshold
  {
    ScanSound(ws, threshold, 0);
    assert Prefix(ws, 0) == 0;
    assert MedianOf(ws, threshold) == Scan(ws, threshold, 0, Prefix(ws, 0));
    forall v | 2 <= v < 256 && Prefix(ws, v) < threshold <= Prefix(ws, v + 1)
      ensures MedianOf(ws, threshold) == v
    {
      ScanFinds(ws, threshold, 0, v);
    }
    if threshold <= Prefix(ws, 2) {
      if threshold <= Prefix(ws, 1) {
        ScanFinds(ws, threshold, 0, 0);
      } else {
        ScanFinds(ws, threshold, 0, 1);
      }
    } else if Prefix(ws, 256) < threshold {
      var r := MedianOf(ws, threshold);
      if r >= 2 {
        PrefixMonotone(ws, r + 1, 256);
      }
    }
  }
}
