/** The raw genotype comparer of comparers.py, which works on the `data`
    part of what `parse` (parse_vcf.py) returns: one list of raw data fields
    per identifier. */
module RawComparers {
  import opened Wrappers
  import opened Text
  import opened Comparers

  /** `extract_gt` is `GenotypeText`: the field up to its first `:`. It is a
      prefix of the field, followed by the `:` when something was cut. */
  lemma ExtractGtPrefix(variant: string)
    ensures GenotypeText(variant) <= variant
    ensures |GenotypeText(variant)| < |variant| ==> variant[|GenotypeText(variant)|] == ':'
    ensures ':' !in variant ==> GenotypeText(variant) == variant
  {
    GenotypeTextMeaning(variant);
  }

  /** The number of positions, up to the end of the shorter list, whose GT
      texts differ. */
  function Differences(a: seq<string>, b: seq<string>): (n: nat)
    ensures n <= |a| && n <= |b|
    decreases |a|
  {
    var m := if |a| < |b| then |a| else |b|;
    if m == 0 then 0
    else Differences(a[..m - 1], b[..m - 1]) + (if GenotypeText(a[m - 1]) != GenotypeText(b[m - 1]) then 1 else 0)
  }

  /** Swapping the two lists changes nothing. */
  lemma {:induction false} DifferencesSymmetric(a: seq<string>, b: seq<string>)
    ensures Differences(a, b) == Differences(b, a)
    decreases |a|
  {
    var m := if |a| < |b| then |a| else |b|;
    if m > 0 {
      DifferencesSymmetric(a[..m - 1], b[..m - 1]);
    }
  }

  /** A list never differs from itself. */
  lemma {:induction false} DifferencesSelf(a: seq<string>)
    ensures Differences(a, a) == 0
    decreases |a|
  {
    if |a| > 0 {
      DifferencesSelf(a[..|a| - 1]);
    }
  }

  /** Only the first `min(len)` positions count: the rest of the longer list is ignored. */
  lemma DifferencesTruncated(a: seq<string>, b: seq<string>, m: nat)
    requires m == if |a| < |b| then |a| else |b|
    ensures Differences(a, b) == Differences(a[..m], b[..m])
  {
    var a', b' := a[..m], b[..m];
    if m > 0 {
      assert a'[..m - 1] == a[..m - 1] && a'[m - 1] == a[m - 1];
      assert b'[..m - 1] == b[..m - 1] && b'[m - 1] == b[m - 1];
    }
  }

  /** The count of the first `i + 1` positions. */
  lemma DifferencesSnoc(a: seq<string>, b: seq<string>, i: nat)
    requires i < |a| && i < |b|
    ensures Differences(a[..i + 1], b[..i + 1]) ==
            Differences(a[..i], b[..i]) + (if GenotypeText(a[i]) != GenotypeText(b[i]) then 1 else 0)
  {
    assert a[..i + 1][..i] == a[..i];
    assert b[..i + 1][..i] == b[..i];
  }

  /** GT texts are compared as raw strings: phasing alone, as in `0|1` against
      `1|0`, counts as a difference. */
  lemma PhasingCounts()
    ensures Differences(["0|1"], ["1|0"]) == 1
  {
    SplitSingle("0|1", ':');
    SplitSingle("1|0", ':');
    assert GenotypeText("0|1") != GenotypeText("1|0");
  }

  /** `default_compare(vcf, id1, id2)`: an unknown `id1`, then an unknown
      `id2`, raises; otherwise the number of positions where the GT texts of
      the two individuals differ. */
  method DefaultCompare(data: map<string, seq<string>>, id1: string, id2: string) returns (r: Result<nat>)
    ensures id1 !in data ==> r == Err(UnknownIndividual(id1))
    ensures id1 in data && id2 !in data ==> r == Err(UnknownIndividual(id2))
    ensures id1 in data && id2 in data ==> r == Ok(Differences(data[id1], data[id2]))
  {
    if id1 !in data {
      return Err(UnknownIndividual(id1));
    }
    if id2 !in data {
      return Err(UnknownIndividual(id2));
    }
    var a, b := data[id1], data[id2];
    var m := if |a| < |b| then |a| else |b|;
    var counter := 0;
    var i := 0;
    while i < m
      invariant 0 <= i <= m
      invariant counter == Differences(a[..i], b[..i])
    {
      DifferencesSnoc(a, b, i);
      if GenotypeText(a[i]) != GenotypeText(b[i]) {
        counter := counter + 1;
      }
      i := i + 1;
    }
    DifferencesTruncated(a, b, m);
    return Ok(counter);
  }

  /** Comparing the two individuals either way round gives the same result
      once both are known, and an individual is at distance 0 from itself. */
  lemma DefaultCompareSymmetric(data: map<string, seq<string>>, id1: string, id2: string)
    requires id1 in data && id2 in data
    ensures Differences(data[id1], data[id2]) == Differences(data[id2], data[id1])
    ensures Differences(data[id1], data[id1]) == 0
  {
    DifferencesSymmetric(data[id1], data[id2]);
    DifferencesSelf(data[id1]);
  }
}
