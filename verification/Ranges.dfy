/** The closed ranges in which NAKs and the journal report what is missing. */
module Ranges {
  import opened Bytes

  datatype Range = Range(first: u32, last: u32)

  predicate Covers(r: Range, p: nat) { r.first <= p <= r.last }

  ghost predicate CoveredBy(rs: seq<Range>, p: nat)
  {
    exists k | 0 <= k < |rs| :: Covers(rs[k], p)
  }

  /** `rs` names exactly the positions at which `missing` holds. */
  ghost predicate Denotes(rs: seq<Range>, missing: seq<bool>)
  {
    && (forall k | 0 <= k < |rs| :: rs[k].first <= rs[k].last < |missing|)
    && (forall p: nat | p < |missing| :: missing[p] <==> CoveredBy(rs, p))
  }

  /** Ascending, with a gap between any range and a later one. */
  ghost predicate Separated(rs: seq<Range>)
  {
    forall j, k | 0 <= j < k < |rs| :: rs[j].last + 1 < rs[k].first
  }

  ghost predicate Canonical(rs: seq<Range>, missing: seq<bool>)
  {
    Denotes(rs, missing) && Separated(rs)
  }

  /** Does the last of `rs` end just before position `n`? */
  predicate EndsAt(rs: seq<Range>, n: nat)
  {
    rs != [] && rs[|rs| - 1].last + 1 == n
  }

  function Extend(rs: seq<Range>, p: u32): seq<Range>
  {
    if EndsAt(rs, p)
    then rs[..|rs| - 1] + [Range(rs[|rs| - 1].first, p)]
    else rs + [Range(p, p)]
  }

  /** The maximal runs of `missing`. */
  function Runs(missing: seq<bool>): seq<Range>
    requires |missing| < 0x1_0000_0000
  {
    if missing == [] then []
    else
      var n := |missing| - 1;
      var rs := Runs(missing[..n]);
      if missing[n] then Extend(rs, n) else rs
  }

  lemma ExtendCanonical(rs: seq<Range>, missing: seq<bool>)
    requires |missing| < 0x1_0000_0000 - 1 && Canonical(rs, missing)
    ensures Canonical(Extend(rs, |missing|), missing + [true])
  {
    var n := |missing|;
    var es, all := Extend(rs, n), missing + [true];
    assert Covers(es[|es| - 1], n);
    forall p: nat | p < |all|
      ensures all[p] <==> CoveredBy(es, p)
    {
      if p < n && missing[p] {
        var k :| 0 <= k < |rs| && Covers(rs[k], p);
        assert Covers(es[k], p);
      } else if p < n {
        forall k | 0 <= k < |es|
          ensures !Covers(es[k], p)
        {
          assert k < |rs| ==> !Covers(rs[k], p);
        }
      }
    }
  }

  lemma SkipCanonical(rs: seq<Range>, missing: seq<bool>)
    requires Canonical(rs, missing)
    ensures Canonical(rs, missing + [false])
  {
    var all := missing + [false];
    forall p: nat | p < |all|
      ensures all[p] <==> CoveredBy(rs, p)
    {
      if p < |missing| {
        assert all[p] == missing[p];
      }
    }
  }

  lemma {:induction false} RunsCanonical(missing: seq<bool>)
    requires |missing| < 0x1_0000_0000
    ensures Canonical(Runs(missing), missing)
    decreases |missing|
  {
    if missing != [] {
      var n := |missing| - 1;
      var before := missing[..n];
      RunsCanonical(before);
      assert missing == before + [missing[n]];
      if missing[n] {
        ExtendCanonical(Runs(before), before);
      } else {
        SkipCanonical(Runs(before), before);
      }
    }
  }

  /** The runs reach the end of the scanned part exactly when its last element is missing. */
  lemma RunsEnd(missing: seq<bool>)
    requires |missing| < 0x1_0000_0000
    ensures EndsAt(Runs(missing), |missing|) <==> missing != [] && missing[|missing| - 1]
  {
    RunsCanonical(missing);
    var rs, n := Runs(missing), |missing|;
    if missing != [] && missing[n - 1] {
      var k :| 0 <= k < |rs| && Covers(rs[k], n - 1);
      assert k == |rs| - 1;
    } else if rs != [] {
      assert missing != [] ==> !Covers(rs[|rs| - 1], n - 1);
    }
  }

  lemma {:induction false} RunsShort(missing: seq<bool>)
    requires |missing| < 0x1_0000_0000
    ensures |Runs(missing)| <= |missing|
    decreases |missing|
  {
    if missing != [] {
      RunsShort(missing[..|missing| - 1]);
    }
  }

  // ----- one list only

  /** The first missing position starts the first range of any canonical list. */
  lemma FirstIsLeast(rs: seq<Range>, missing: seq<bool>)
    requires Canonical(rs, missing)
    ensures rs == [] <==> forall p: nat | p < |missing| :: !missing[p]
    ensures rs != [] ==>
              && missing[rs[0].first]
              && forall p: nat | p < rs[0].first :: !missing[p]
  {
    if rs != [] {
      assert Covers(rs[0], rs[0].first);
      assert CoveredBy(rs, rs[0].first);
      assert missing[rs[0].first];
      forall p: nat | p < rs[0].first
        ensures !missing[p]
      {
        assert forall k | 0 <= k < |rs| :: !Covers(rs[k], p);
      }
    }
  }

  /** A position inside a canonical range; the one after its end is not missing. */
  lemma RangeInside(rs: seq<Range>, missing: seq<bool>, k: nat, p: nat)
    requires Canonical(rs, missing) && k < |rs|
    ensures Covers(rs[k], p) ==> p < |missing| && missing[p]
    ensures rs[k].last + 1 < |missing| ==> !missing[rs[k].last + 1]
    ensures rs[k].first > 0 ==> !missing[rs[k].first - 1]
  {
    forall j | 0 <= j < |rs|
      ensures !Covers(rs[j], rs[k].last + 1)
      ensures rs[k].first > 0 ==> !Covers(rs[j], rs[k].first - 1)
    {
    }
  }

  /** Canonical lists agree range by range. */
  lemma {:induction false} CanonicalAgree(a: seq<Range>, b: seq<Range>, missing: seq<bool>, k: nat)
    requires Canonical(a, missing) && Canonical(b, missing) && k <= |a| && k <= |b|
    ensures a[..k] == b[..k]
  {
    if k > 0 {
      CanonicalAgree(a, b, missing, k - 1);
      SameFirst(a, b, missing, k - 1);
      SameFirst(b, a, missing, k - 1);
      SameLast(a, b, missing, k - 1);
      SameLast(b, a, missing, k - 1);
    }
  }

  lemma SameFirst(a: seq<Range>, b: seq<Range>, missing: seq<bool>, k: nat)
    requires Canonical(a, missing) && Canonical(b, missing) && k < |a|
    requires k <= |b| && a[..k] == b[..k]
    ensures k < |b| && b[k].first <= a[k].first
  {
    RangeInside(a, missing, k, a[k].first);
    forall i | 0 <= i < k
      ensures !Covers(b[i], a[k].first)
    {
      assert b[i] == b[..k][i] == a[..k][i] == a[i];
    }
    var j :| 0 <= j < |b| && Covers(b[j], a[k].first);
    if k < j {
      assert b[k].last < b[j].first;
    }
  }

  lemma SameLast(a: seq<Range>, b: seq<Range>, missing: seq<bool>, k: nat)
    requires Canonical(a, missing) && Canonical(b, missing) && k < |a| && k < |b|
    requires a[k].first == b[k].first
    ensures a[k].last <= b[k].last
  {
    if b[k].last < a[k].last {
      RangeInside(a, missing, k, b[k].last + 1);
      RangeInside(b, missing, k, b[k].last);
    }
  }

  /** A canonical list for given positions is unique. */
  lemma CanonicalUnique(a: seq<Range>, b: seq<Range>, missing: seq<bool>)
    requires Canonical(a, missing) && Canonical(b, missing)
    ensures a == b
  {
    var n := Min(|a|, |b|);
    CanonicalAgree(a, b, missing, n);
    if n < |a| {
      SameFirst(a, b, missing, n);
    }
    if n < |b| {
      SameFirst(b, a, missing, n);
    }
  }

  // ----- no shorter list

  lemma {:induction false} DistinctBelow(js: seq<nat>, n: nat)
    requires forall k | 0 <= k < |js| :: js[k] < n
    requires forall k, l | 0 <= k < l < |js| :: js[k] != js[l]
    ensures |js| <= n
  {
    if js != [] {
      assert js[0] < n;
      if k :| 0 <= k < |js| && js[k] == n - 1 {
        DistinctBelow(js[..k] + js[k + 1..], n - 1);
      } else {
        DistinctBelow(js, n - 1);
      }
    }
  }

  lemma {:induction false} PickRanges(a: seq<Range>, b: seq<Range>, missing: seq<bool>, n: nat) returns (js: seq<nat>)
    requires Canonical(a, missing) && Denotes(b, missing) && n <= |a|
    ensures |js| == n
    ensures forall k | 0 <= k < n :: js[k] < |b| && Covers(b[js[k]], a[k].first)
  {
    js := [];
    if n > 0 {
      js := PickRanges(a, b, missing, n - 1);
      RangeInside(a, missing, n - 1, a[n - 1].first);
      var j :| 0 <= j < |b| && Covers(b[j], a[n - 1].first);
      js := js + [j];
    }
  }

  /** Any other list of ranges, in any order and overlapping or not, is at least as long. */
  lemma CanonicalShortest(a: seq<Range>, b: seq<Range>, missing: seq<bool>)
    requires Canonical(a, missing) && Denotes(b, missing)
    ensures |a| <= |b|
  {
    var js := PickRanges(a, b, missing, |a|);
    forall k, l | 0 <= k < l < |a|
      ensures js[k] != js[l]
    {
      var gap := a[k].last + 1;
      RangeInside(a, missing, k, gap);
      assert !Covers(b[js[k]], gap) by {
        assert !CoveredBy(b, gap);
      }
    }
    DistinctBelow(js, |b|);
  }

  // ----- the scan both sources write

  /** The conversion `static_cast<int>` of a 32-bit unsigned value. */
  function ToInt32(i: u32): int { if i < 0x8000_0000 then i else i - 0x1_0000_0000 }

  /** What the scan has found after `n` elements: the pushed ranges and, unless
      `rangeStart` is -1, the one still open. */
  ghost function Found(ranges: seq<Range>, rangeStart: int, n: u32): seq<Range>
    requires rangeStart != -1 ==> n > 0
  {
    if rangeStart == -1 then ranges else ranges + [Range(Wrap32(rangeStart), n - 1)]
  }

  /** The loop invariant shared by the two scans. */
  ghost predicate Scanned(missing: seq<bool>, ranges: seq<Range>, rangeStart: int, n: nat)
  {
    && n <= |missing| <= UINT32_MAX
    && (rangeStart == -1 <==> n == 0 || !missing[n - 1])
    && Found(ranges, rangeStart, n) == Runs(missing[..n])
  }

  lemma ScanStep(missing: seq<bool>, ranges: seq<Range>, rangeStart: int, n: nat)
    requires Scanned(missing, ranges, rangeStart, n) && n < |missing|
    ensures missing[n] && rangeStart == -1 ==> Scanned(missing, ranges, ToInt32(n), n + 1)
    ensures missing[n] && rangeStart != -1 ==> Scanned(missing, ranges, rangeStart, n + 1)
    ensures !missing[n] && rangeStart == -1 ==> Scanned(missing, ranges, -1, n + 1)
    ensures !missing[n] && rangeStart != -1 ==>
              Scanned(missing, ranges + [Range(Wrap32(rangeStart), n - 1)], -1, n + 1)
  {
    assert missing[..n + 1][..n] == missing[..n];
    RunsEnd(missing[..n]);
    assert Wrap32(ToInt32(n)) == n;
  }
}
