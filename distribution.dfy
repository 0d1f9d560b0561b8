/** The Distribution base class: a positive rate, and the cumulative and
    complementary cumulative forms of a probability mass function, each
    computed in place on the array getPMF returns. */
module Distributions {
  import opened Outcomes

  /** s[0] + ... + s[|s|-1]. */
  function Sum(s: seq<real>): real
  {
    if s == [] then 0.0 else Sum(s[..|s| - 1]) + s[|s| - 1]
  }

  /** The running totals of s: entry i is Sum(s[..i+1]). */
  function PrefixSums(s: seq<real>): (r: seq<real>)
    ensures |r| == |s|
  {
    if s == [] then [] else PrefixSums(s[..|s| - 1]) + [Sum(s)]
  }

  /** One minus every entry. */
  function Complement(c: seq<real>): (r: seq<real>)
    ensures |r| == |c|
  {
    seq(|c|, i requires 0 <= i < |c| => 1.0 - c[i])
  }

  /** Entry i of the running totals is the sum of the first i+1 entries. */
  lemma {:induction false} PrefixSumsAt(s: seq<real>, i: int)
    requires 0 <= i < |s|
    ensures PrefixSums(s)[i] == Sum(s[..i + 1])
  {
    var p := s[..|s| - 1];
    if i < |s| - 1 {
      PrefixSumsAt(p, i);
      assert p[..i + 1] == s[..i + 1];
    } else {
      assert s[..i + 1] == s;
    }
  }

  /** The running totals give the mass function back: the first total is
      the first mass, and each later mass is the difference of two
      consecutive totals. */
  lemma PrefixSumsInverse(s: seq<real>, i: int)
    requires 0 <= i < |s|
    ensures i == 0 ==> PrefixSums(s)[0] == s[0]
    ensures i > 0 ==> PrefixSums(s)[i] - PrefixSums(s)[i - 1] == s[i]
  {
    PrefixSumsAt(s, i);
    if i == 0 {
      assert s[..1][..0] == [];
    } else {
      PrefixSumsAt(s, i - 1);
      assert s[..i + 1][..i] == s[..i];
    }
  }

  /** With no negative mass the cumulative function never decreases, and
      its last entry is the total mass. */
  lemma PrefixSumsMonotone(s: seq<real>, i: int, j: int)
    requires forall k | 0 <= k < |s| :: s[k] >= 0.0
    requires 0 <= i <= j < |s|
    ensures PrefixSums(s)[i] <= PrefixSums(s)[j]
    ensures PrefixSums(s)[|s| - 1] == Sum(s)
  {
    PrefixSumsAt(s, i);
    PrefixSumsAt(s, j);
    PrefixSumsAt(s, |s| - 1);
    assert s[..|s|] == s;
    SumGrows(s, i + 1, j + 1);
  }

  lemma {:induction false} SumGrows(s: seq<real>, i: int, j: int)
    requires forall k | 0 <= k < |s| :: s[k] >= 0.0
    requires 0 <= i <= j <= |s|
    ensures Sum(s[..i]) <= Sum(s[..j])
    decreases j - i
  {
    if i < j {
      SumGrows(s, i, j - 1);
      assert s[..j][..j - 1] == s[..j - 1];
    }
  }

  /** The complementary function gives the cumulative one back. */
  lemma ComplementInverse(c: seq<real>)
    ensures Complement(Complement(c)) == c
  {
    var r := Complement(Complement(c));
    assert forall i | 0 <= i < |c| :: r[i] == c[i];
  }

  /** For a mass function of total 1 with no negative mass, the
      complementary cumulative function lies in [0, 1], never increases,
      and ends at 0. */
  lemma CcdfOfPmf(s: seq<real>, i: int, j: int)
    requires forall k | 0 <= k < |s| :: s[k] >= 0.0
    requires Sum(s) == 1.0 && 0 <= i <= j < |s|
    ensures Complement(PrefixSums(s))[i] >= Complement(PrefixSums(s))[j]
    ensures 0.0 <= Complement(PrefixSums(s))[i] <= 1.0
    ensures Complement(PrefixSums(s))[|s| - 1] == 0.0
  {
    PrefixSumsMonotone(s, i, j);
    PrefixSumsMonotone(s, 0, i);
    PrefixSumsMonotone(s, i, |s| - 1);
    PrefixSumsInverse(s, 0);
  }

  class Distribution {
    var distroRate: real

    /** A new distribution has rate 0.5. */
    constructor ()
      ensures distroRate == 0.5
    {
      distroRate := 0.5;
    }

    /** The Rate property. */
    function Rate(): real
      reads this
    {
      distroRate
    }

    /** setRate: a rate that is not positive is refused and the rate is
        kept; any other becomes the rate. */
    method SetRate(r: real) returns (o: Outcome)
      modifies this
      ensures r <= 0.0 ==> o == Failure(ArgumentError) && distroRate == old(distroRate)
      ensures r > 0.0 ==> o == Success && distroRate == r
    {
      if r <= 0.0 {
        return Failure(ArgumentError);
      }
      distroRate := r;
      return Success;
    }

    /** getCDF on the array getPMF returned: each entry from index 1 on
        adds the running total before it, so entry i becomes the mass of
        entries 0 to i and entry 0 stays the first mass. */
    static method GetCDF(cdf: array<real>)
      modifies cdf
      ensures cdf[..] == PrefixSums(old(cdf[..]))
    {
      ghost var s := cdf[..];
      if cdf.Length == 0 {
        return;
      }
      assert s[..1] == [s[0]] && s[..1][..0] == [];
      assert Sum(s[..1]) == s[0];
      assert PrefixSums(s[..1]) == [s[0]];
      assert cdf[..1] == [cdf[0]];
      for i := 1 to cdf.Length
        invariant cdf[..i] == PrefixSums(s[..i])
        invariant cdf[i..] == s[i..]
      {
        PrefixSumsAt(s[..i], i - 1);
        assert s[..i][..i] == s[..i];
        assert cdf[i] == s[i];
        cdf[i] := cdf[i - 1] + cdf[i];
        assert s[..i + 1][..i] == s[..i];
        assert cdf[..i + 1] == cdf[..i] + [cdf[i]];
      }
      assert s[..cdf.Length] == s;
    }

    /** getCCDF: getCDF, then one minus every entry. */
    static method GetCCDF(ccdf: array<real>)
      modifies ccdf
      ensures ccdf[..] == Complement(PrefixSums(old(ccdf[..])))
    {
      GetCDF(ccdf);
      ghost var c := ccdf[..];
      for i := 0 to ccdf.Length
        invariant ccdf[..i] == Complement(c)[..i]
        invariant ccdf[i..] == c[i..]
      {
        ccdf[i] := 1.0 - ccdf[i];
        assert ccdf[..i + 1] == ccdf[..i] + [ccdf[i]];
      }
      assert ccdf[..] == ccdf[..ccdf.Length];
    }
  }
}
