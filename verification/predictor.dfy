/** The population predictors of vcf/predictor.py. Each data row gives every
    column a dosage ratio (the share of non-reference alleles), every group a
    frequency, and every configured individual some votes for the groups whose
    frequency lies near its ratio; `terminate` turns each individual's votes
    into a label. `PredictorJoao` and `PredictorMariana` differ only in how
    they vote. */
module Predictors {
  import opened Wrappers
  import opened Text
  import opened Itertools
  import opened Handlers
  import opened Comparers
  import opened Populations

  /** Column of the variant identifier among the fixed columns. */
  const ID_COLUMN: nat := 2
  /** Column of the INFO field among the fixed columns. */
  const INFO_COLUMN: nat := 7
  /** The five 1000 Genomes super-populations. */
  const SUPERPOPULATIONS: set<string> := {"AFR", "AMR", "EAS", "EUR", "SAS"}
  /** The label of an unknown population, and of an undecided prediction. */
  const UNLABELLED: string := "---"

  /** The two voting rules. */
  datatype Strategy = Joao | Mariana

  // ---------------------------------------------------------------------
  // Dosage ratios

  /** The alleles `process_variant` reads from a data field: `|` is tried
      before `/`, and nothing is stripped. */
  function RatioAlleles(field: string): (r: seq<string>)
    ensures |r| >= 1
    ensures '|' in GenotypeText(field) ==> forall k :: 0 <= k < |r| ==> '|' !in r[k]
    ensures '|' !in GenotypeText(field) ==> forall k :: 0 <= k < |r| ==> '/' !in r[k] && '|' !in r[k]
  {
    var gt := GenotypeText(field);
    if '|' in gt then Split(gt, '|')
    else if '/' in gt then SplitPieceChars(gt, '/'); Split(gt, '/')
    else [gt]
  }

  /** The number of alleles other than `0`. */
  function Alternatives(alleles: seq<string>): (n: nat)
    ensures n <= |alleles|
    ensures n == 0 <==> forall k :: 0 <= k < |alleles| ==> alleles[k] == "0"
    ensures n == |alleles| <==> forall k :: 0 <= k < |alleles| ==> alleles[k] != "0"
  {
    if |alleles| == 0 then 0
    else Alternatives(alleles[..|alleles| - 1]) + (if alleles[|alleles| - 1] != "0" then 1 else 0)
  }

  lemma FractionBounds(n: nat, d: nat)
    requires 0 < d && n <= d
    ensures 0.0 <= n as real / d as real <= 1.0
    ensures n as real / d as real == 0.0 <==> n == 0
    ensures n as real / d as real == 1.0 <==> n == d
  {
    var q := n as real / d as real;
    assert q * d as real == n as real;
  }

  /** `process_variant`: the share of alleles other than `0`, in [0, 1]; it is
      0 exactly when every allele is `0` and 1 exactly when none is. */
  function DosageRatio(field: string): (r: real)
    ensures 0.0 <= r <= 1.0
    ensures r == 0.0 <==> forall k :: 0 <= k < |RatioAlleles(field)| ==> RatioAlleles(field)[k] == "0"
    ensures r == 1.0 <==> forall k :: 0 <= k < |RatioAlleles(field)| ==> RatioAlleles(field)[k] != "0"
  {
    var alleles := RatioAlleles(field);
    FractionBounds(Alternatives(alleles), |alleles|);
    Alternatives(alleles) as real / |alleles| as real
  }

  /** With both separators present the `|` split wins: `1/0|0` has the two
      alleles `1/0` and `0`, so its ratio is one half. */
  lemma {:induction false} PipeBeforeSlash()
    ensures RatioAlleles("1/0|0") == ["1/0", "0"]
    ensures DosageRatio("1/0|0") == 0.5
  {
    PipeSplit();
    var alleles := ["1/0", "0"];
    assert alleles[..1] == ["1/0"];
    assert Alternatives(alleles) == 1;
  }

  lemma PipeSplit()
    ensures RatioAlleles("1/0|0") == ["1/0", "0"]
  {
    var gt := "1/0|0";
    SplitSingle(gt, ':');
    assert gt == "1/0" + ['|'] + "0";
    SplitCons("1/0", '|', "0");
    SplitSingle("0", '|');
  }

  /** The ratios of the data fields of a row, one per column. */
  function Ratios(data: seq<string>): (r: seq<real>)
    ensures |r| == |data|
    ensures forall k :: 0 <= k < |data| ==> r[k] == DosageRatio(data[k]) && 0.0 <= r[k] <= 1.0
  {
    seq(|data|, k requires 0 <= k < |data| => DosageRatio(data[k]))
  }

  // ---------------------------------------------------------------------
  // Group frequencies

  /** The sum of the ratios of the columns labelled `g`. */
  function SumFor(cols: seq<(string, real)>, g: string): real
  {
    if |cols| == 0 then 0.0
    else SumFor(cols[..|cols| - 1], g) + (if cols[|cols| - 1].0 == g then cols[|cols| - 1].1 else 0.0)
  }

  /** The number of columns labelled `g`. */
  function CountFor(cols: seq<(string, real)>, g: string): nat
  {
    if |cols| == 0 then 0
    else CountFor(cols[..|cols| - 1], g) + (if cols[|cols| - 1].0 == g then 1 else 0)
  }

  /** A group has columns iff some column carries its label. */
  lemma {:induction false} CountForPositive(cols: seq<(string, real)>, g: string)
    ensures CountFor(cols, g) > 0 <==> exists k :: 0 <= k < |cols| && cols[k].0 == g
  {
    if |cols| > 0 {
      var init := cols[..|cols| - 1];
      CountForPositive(init, g);
      if exists k :: 0 <= k < |init| && init[k].0 == g {
        var k :| 0 <= k < |init| && init[k].0 == g;
        assert cols[k] == init[k];
      }
      if exists k :: 0 <= k < |cols| && cols[k].0 == g {
        var k :| 0 <= k < |cols| && cols[k].0 == g;
        if k < |init| { assert init[k] == cols[k]; }
      }
    }
  }

  /** With ratios in [0, 1], the sum for a group lies between 0 and its count. */
  lemma {:induction false} SumForBounds(cols: seq<(string, real)>, g: string)
    requires forall k :: 0 <= k < |cols| ==> 0.0 <= cols[k].1 <= 1.0
    ensures 0.0 <= SumFor(cols, g) <= CountFor(cols, g) as real
  {
    if |cols| > 0 {
      SumForBounds(cols[..|cols| - 1], g);
    }
  }

  /** A group without columns sums to nothing. */
  lemma {:induction false} SumForAbsent(cols: seq<(string, real)>, g: string)
    requires CountFor(cols, g) == 0
    ensures SumFor(cols, g) == 0.0
  {
    if |cols| > 0 {
      SumForAbsent(cols[..|cols| - 1], g);
    }
  }

  /** One more column adds its ratio to its own group only. */
  lemma SnocFor(cols: seq<(string, real)>, i: nat, x: string)
    requires i < |cols|
    ensures SumFor(cols[..i + 1], x) == SumFor(cols[..i], x) + (if cols[i].0 == x then cols[i].1 else 0.0)
    ensures CountFor(cols[..i + 1], x) == CountFor(cols[..i], x) + (if cols[i].0 == x then 1 else 0)
  {
    assert cols[..i + 1][..i] == cols[..i];
  }

  /** The key order of the `counts` dictionary: each label other than `---`
      once, in order of first appearance. */
  function LabelledGroups(cols: seq<(string, real)>): seq<string>
  {
    if |cols| == 0 then []
    else
      var u := LabelledGroups(cols[..|cols| - 1]);
      var g := cols[|cols| - 1].0;
      if g == UNLABELLED || g in u then u else u + [g]
  }

  /** Each labelled group once: exactly the labels other than `---` that some column carries. */
  lemma {:induction false} LabelledGroupsMeaning(cols: seq<(string, real)>)
    ensures Distinct(LabelledGroups(cols))
    ensures forall x :: x in LabelledGroups(cols) <==> x != UNLABELLED && CountFor(cols, x) > 0
  {
    if |cols| > 0 {
      LabelledGroupsMeaning(cols[..|cols| - 1]);
    }
  }

  lemma DivTimes(a: real, b: real)
    requires b != 0.0
    ensures (a / b) * b == a
  {
  }

  lemma UnitQuotient(q: real, n: real)
    requires n > 0.0 && 0.0 <= q * n <= n
    ensures 0.0 <= q <= 1.0
  {
  }

  /** The mean ratio of the columns labelled `g`. */
  function MeanFor(cols: seq<(string, real)>, g: string): (m: real)
    requires CountFor(cols, g) > 0
    ensures m * CountFor(cols, g) as real == SumFor(cols, g)
  {
    DivTimes(SumFor(cols, g), CountFor(cols, g) as real);
    SumFor(cols, g) / CountFor(cols, g) as real
  }

  /** With ratios in [0, 1], a mean is in [0, 1]. */
  lemma MeanBounds(cols: seq<(string, real)>, g: string)
    requires forall k :: 0 <= k < |cols| ==> 0.0 <= cols[k].1 <= 1.0
    requires CountFor(cols, g) > 0
    ensures 0.0 <= MeanFor(cols, g) <= 1.0
  {
    SumForBounds(cols, g);
    UnitQuotient(MeanFor(cols, g), CountFor(cols, g) as real);
  }

  /** The computed branch of `get_frequencies`: every labelled group, in
      first-appearance order, with the mean ratio of its columns. */
  function Frequencies(cols: seq<(string, real)>): (r: seq<(string, real)>)
    ensures |r| == |LabelledGroups(cols)|
    ensures forall k :: 0 <= k < |r| ==> r[k].0 == LabelledGroups(cols)[k]
    ensures forall k :: 0 <= k < |r| ==> CountFor(cols, r[k].0) > 0 && r[k].1 == MeanFor(cols, r[k].0)
  {
    var groups := LabelledGroups(cols);
    LabelledGroupsMeaning(cols);
    seq(|groups|, k requires 0 <= k < |groups| => (groups[k], MeanFor(cols, groups[k])))
  }

  /** A group has a frequency iff it is not `---` and labels some column; with
      ratios in [0, 1] each frequency is in [0, 1]. */
  lemma FrequenciesMeaning(cols: seq<(string, real)>, g: string)
    requires forall k :: 0 <= k < |cols| ==> 0.0 <= cols[k].1 <= 1.0
    ensures (exists k :: 0 <= k < |Frequencies(cols)| && Frequencies(cols)[k].0 == g) <==>
            g != UNLABELLED && exists k :: 0 <= k < |cols| && cols[k].0 == g
    ensures forall k :: 0 <= k < |Frequencies(cols)| ==> 0.0 <= Frequencies(cols)[k].1 <= 1.0
  {
    var f := Frequencies(cols);
    var groups := LabelledGroups(cols);
    LabelledGroupsMeaning(cols);
    CountForPositive(cols, g);
    if g in groups {
      var k :| 0 <= k < |groups| && groups[k] == g;
      assert f[k].0 == g;
    }
    forall k | 0 <= k < |f| ensures 0.0 <= f[k].1 <= 1.0 {
      MeanBounds(cols, f[k].0);
    }
  }

  /** The loop of `get_frequencies` over the labelled columns, with the
      `counts` and `totals` dictionaries and the final division. */
  method ComputeFrequencies(labels: seq<string>, ratios: seq<real>) returns (freqs: seq<(string, real)>)
    ensures freqs == Frequencies(Zip(labels, ratios))
  {
    var cols := Zip(labels, ratios);
    var order, counts, totals := Tally(cols);
    LabelledGroupsMeaning(cols);
    freqs := seq(|order|, k requires 0 <= k < |order| => (order[k], counts[order[k]] / totals[order[k]] as real));
    forall k | 0 <= k < |order| ensures freqs[k] == Frequencies(cols)[k] {
      DivTimes(counts[order[k]], totals[order[k]] as real);
    }
  }

  /** The `counts` and `totals` dictionaries after the loop, with their key order. */
  method Tally(cols: seq<(string, real)>)
    returns (order: seq<string>, counts: map<string, real>, totals: map<string, nat>)
    ensures order == LabelledGroups(cols)
    ensures forall x :: x in order ==>
              x in counts && x in totals && counts[x] == SumFor(cols, x) && totals[x] == CountFor(cols, x)
  {
    counts, totals, order := map[], map[], [];
    var i := 0;
    while i < |cols|
      invariant 0 <= i <= |cols|
      invariant order == LabelledGroups(cols[..i]) && UNLABELLED !in order
      invariant forall x :: x in counts ==> x in order
      invariant forall x :: x in order ==>
                  x in counts && x in totals &&
                  counts[x] == SumFor(cols[..i], x) && totals[x] == CountFor(cols[..i], x)
    {
      ghost var before, after := cols[..i], cols[..i + 1];
      assert after[..i] == before;
      var pop := cols[i].0;
      var f := cols[i].1;
      if pop != UNLABELLED {
        if pop !in counts {
          LabelledGroupsMeaning(before);
          SumForAbsent(before, pop);
          order := order + [pop];
          counts := counts[pop := 0.0];
          totals := totals[pop := 0];
        }
        counts := counts[pop := counts[pop] + f];
        totals := totals[pop := totals[pop] + 1];
      }
      forall x | x in order
        ensures x in counts && x in totals &&
                counts[x] == SumFor(cols[..i + 1], x) && totals[x] == CountFor(cols[..i + 1], x)
      {
        SnocFor(cols, i, x);
      }
      i := i + 1;
    }
    assert cols[..i] == cols;
  }

  /** The frequency source of `get_frequencies`: the INFO field while
      `from_info` holds and it yields all five frequencies, otherwise the
      computed means. The flag that comes back is the new `from_info`. */
  function GetFrequencies(info: string -> Option<seq<(string, real)>>, fromInfo: bool, fixed: seq<string>,
                          labels: Option<seq<string>>, ratios: seq<real>): (r: (Result<seq<(string, real)>>, bool))
    // the flag never turns on
    ensures r.1 ==> fromInfo
    // a short row under the flag raises before the flag can change
    ensures fromInfo && |fixed| <= INFO_COLUMN ==> r == (Err(IndexError), true)
    // otherwise the flag stays on exactly while the INFO field yields frequencies
    ensures !(fromInfo && |fixed| <= INFO_COLUMN) ==>
              (r.1 <==> fromInfo && info(fixed[INFO_COLUMN]).Some?)
    ensures r.1 && r.0.Ok? ==> |fixed| > INFO_COLUMN && r.0.value == info(fixed[INFO_COLUMN]).value
    ensures r.0.Err? <==> (fromInfo && |fixed| <= INFO_COLUMN) || (!r.1 && labels.None?)
    ensures r.0.Err? ==> r.0.error == (if fromInfo && |fixed| <= INFO_COLUMN then IndexError else AttributeError)
    ensures !r.1 && r.0.Ok? ==> labels.Some? && r.0.value == Frequencies(Zip(labels.value, ratios))
  {
    if fromInfo && |fixed| <= INFO_COLUMN then (Err(IndexError), fromInfo)
    else if fromInfo && info(fixed[INFO_COLUMN]).Some? then (Ok(info(fixed[INFO_COLUMN]).value), true)
    else if labels.None? then (Err(AttributeError), false)
    else (Ok(Frequencies(Zip(labels.value, ratios))), false)
  }

  /** `filter_genotypes`: the ratios of the configured individuals' columns,
      in the key order of the column map; an index past the row fails. */
  function FilterGenotypes(ratios: seq<real>, keyOrder: seq<string>, indices: map<string, nat>): (r: Result<seq<real>>)
    requires forall k :: 0 <= k < |keyOrder| ==> keyOrder[k] in indices
    ensures r.Err? <==> exists k :: 0 <= k < |keyOrder| && indices[keyOrder[k]] >= |ratios|
    ensures r.Err? ==> r.error == IndexError
    ensures r.Ok? ==> |r.value| == |keyOrder|
    ensures r.Ok? ==> forall k :: 0 <= k < |keyOrder| ==> r.value[k] == ratios[indices[keyOrder[k]]]
  {
    var cols := Lookup(keyOrder, indices);
    if forall k :: 0 <= k < |cols| ==> cols[k] < |ratios| then
      Ok(seq(|cols|, k requires 0 <= k < |cols| => ratios[cols[k]]))
    else Err(IndexError)
  }

  /** The ratios are paired by position with the configured list, not by
      name. Configured as `B, A` over a header `A, B`, the column map keeps
      header positions and its keys come in header order, `A` first; ... */
  lemma {:induction false} ConfiguredOrderKeys()
    ensures HeaderIndex(["A", "B"], ["B", "A"]) == map["A" := 0, "B" := 1]
    ensures Unique(Selected(["A", "B"], ["B", "A"])) == ["A", "B"]
  {
    TwoColumnIndex();
    TwoColumnSelected();
    UniqueOfDistinct(["A", "B"]);
  }

  lemma TwoColumnIndex()
    ensures HeaderIndex(["A", "B"], ["B", "A"]) == map["A" := 0, "B" := 1]
  {
    var header := ["A", "B"];
    assert header[..1] == ["A"] && header[..1][..0] == [];
    assert HeaderIndex(header[..1], ["B", "A"]) == map["A" := 0];
  }

  lemma TwoColumnSelected()
    ensures Selected(["A", "B"], ["B", "A"]) == ["A", "B"]
  {
    var header := ["A", "B"];
    assert header[..1] == ["A"] && header[..1][..0] == [];
    assert Selected(header[..1], ["B", "A"]) == ["A"];
  }

  /** ... so individual `B` is handed the ratio of column 0, which is `A`'s. */
  lemma {:induction false} ConfiguredOrderMispairs()
    ensures FilterGenotypes([0.25, 0.75], ["A", "B"], map["A" := 0, "B" := 1]) == Ok([0.25, 0.75])
    ensures Zip(["B", "A"], [0.25, 0.75]) == [("B", 0.25), ("A", 0.75)]
  {
    var m := map["A" := 0, "B" := 1];
    assert Lookup(["A", "B"], m) == [0, 1];
    var fg := FilterGenotypes([0.25, 0.75], ["A", "B"], m);
    assert fg.Ok? && |fg.value| == 2 && fg.value[0] == 0.25 && fg.value[1] == 0.75;
    assert fg.value == [0.25, 0.75];
  }

  // ---------------------------------------------------------------------
  // Votes

  function Abs(x: real): real {
    if x < 0.0 then -x else x
  }

  /** The distance of the ratio `g` to each group's frequency. */
  function Distances(freqs: seq<(string, real)>, g: real): (ds: seq<real>)
    ensures |ds| == |freqs|
    ensures forall k :: 0 <= k < |freqs| ==> ds[k] == Abs(g - freqs[k].1)
  {
    seq(|freqs|, k requires 0 <= k < |freqs| => Abs(g - freqs[k].1))
  }

  /** The first position of a least element: the head of a stable sort. */
  function Nearest(ds: seq<real>): (i: nat)
    requires |ds| > 0
    ensures i < |ds|
    ensures forall k :: 0 <= k < |ds| ==> ds[i] <= ds[k]
    ensures forall k :: 0 <= k < i ==> ds[i] < ds[k]
  {
    if |ds| == 1 then 0
    else
      var j := Nearest(ds[..|ds| - 1]);
      if ds[|ds| - 1] < ds[j] then |ds| - 1 else j
  }

  /** The least element. */
  function MinOf(s: seq<real>): (m: real)
    requires |s| > 0
    ensures exists k :: 0 <= k < |s| && s[k] == m
    ensures forall k :: 0 <= k < |s| ==> m <= s[k]
  {
    if |s| == 1 then s[0]
    else
      var m := MinOf(s[..|s| - 1]);
      if s[|s| - 1] < m then s[|s| - 1] else m
  }

  /** `PredictorJoao.process_individual_genotype`: after a stable sort by
      distance, a vote for the nearest group when the runner-up is at least
      `t1` further away; fewer than two groups is an index error. */
  function JoaoVote(freqs: seq<(string, real)>, g: real, t1: real): (r: Result<seq<string>>)
    ensures r.Err? <==> |freqs| < 2
    ensures r.Err? ==> r.error == IndexError
    ensures r.Ok? ==> |r.value| <= 1
    ensures r.Ok? && |r.value| == 1 ==>
              exists i :: 0 <= i < |freqs| && r.value[0] == freqs[i].0 &&
                forall k :: 0 <= k < |freqs| ==> Abs(g - freqs[i].1) <= Abs(g - freqs[k].1)
  {
    if |freqs| < 2 then Err(IndexError)
    else
      var ds := Distances(freqs, g);
      var i := Nearest(ds);
      if MinOf(ds[..i] + ds[i + 1..]) - ds[i] >= t1 then Ok([freqs[i].0]) else Ok([])
  }

  /** For the first-listed nearest group `i`, Joao's rule votes for it iff
      every other group is at least `t1` further away. */
  lemma {:induction false} JoaoVoteMargin(freqs: seq<(string, real)>, g: real, t1: real, i: nat)
    requires |freqs| >= 2 && i < |freqs|
    requires forall k :: 0 <= k < |freqs| ==> Abs(g - freqs[i].1) <= Abs(g - freqs[k].1)
    requires forall k :: 0 <= k < i ==> Abs(g - freqs[i].1) < Abs(g - freqs[k].1)
    ensures JoaoVote(freqs, g, t1) ==
            if forall k :: 0 <= k < |freqs| && k != i ==> Abs(g - freqs[k].1) - Abs(g - freqs[i].1) >= t1
            then Ok([freqs[i].0]) else Ok([])
  {
    NearestIsFirstLeast(freqs, g, i);
    RunnerUpMargin(freqs, g, t1, i);
  }

  /** `Nearest` finds the first-listed nearest group. */
  lemma NearestIsFirstLeast(freqs: seq<(string, real)>, g: real, i: nat)
    requires i < |freqs|
    requires forall k :: 0 <= k < |freqs| ==> Abs(g - freqs[i].1) <= Abs(g - freqs[k].1)
    requires forall k :: 0 <= k < i ==> Abs(g - freqs[i].1) < Abs(g - freqs[k].1)
    ensures Nearest(Distances(freqs, g)) == i
  {
    var ds := Distances(freqs, g);
    var j := Nearest(ds);
    assert ds[i] <= ds[j] && ds[j] <= ds[i];
  }

  /** The least of the other distances is `t1` beyond group `i`'s iff each of them is. */
  lemma RunnerUpMargin(freqs: seq<(string, real)>, g: real, t1: real, i: nat)
    requires |freqs| >= 2 && i < |freqs|
    ensures var ds := Distances(freqs, g);
            MinOf(ds[..i] + ds[i + 1..]) - ds[i] >= t1 <==>
            forall k :: 0 <= k < |freqs| && k != i ==> Abs(g - freqs[k].1) - Abs(g - freqs[i].1) >= t1
  {
    MinRest(Distances(freqs, g), i, t1);
  }

  /** The least element other than `ds[i]` is `t1` beyond it iff each of them is. */
  lemma MinRest(ds: seq<real>, i: nat, t1: real)
    requires |ds| >= 2 && i < |ds|
    ensures MinOf(ds[..i] + ds[i + 1..]) - ds[i] >= t1 <==>
            forall k :: 0 <= k < |ds| && k != i ==> ds[k] - ds[i] >= t1
  {
    var rest := ds[..i] + ds[i + 1..];
    var m := MinOf(rest);
    if m - ds[i] >= t1 {
      forall k | 0 <= k < |ds| && k != i ensures ds[k] - ds[i] >= t1 {
        if k < i { assert rest[k] == ds[k]; } else { assert rest[k - 1] == ds[k]; }
      }
    } else {
      var l :| 0 <= l < |rest| && rest[l] == m;
      var k := if l < i then l else l + 1;
      assert ds[k] == m && k != i;
    }
  }

  /** One pair of groups in Mariana's rule: a vote for the strictly closer
      one, or for the second on a tie, when the distances differ by at least `t1`. */
  function PairVote(p1: (string, real), p2: (string, real), g: real, t1: real): (r: seq<string>)
    ensures |r| <= 1
    ensures |r| == 1 <==> Abs(Abs(g - p1.1) - Abs(g - p2.1)) >= t1
    ensures |r| == 1 ==> r[0] == if Abs(g - p1.1) < Abs(g - p2.1) then p1.0 else p2.0
  {
    var d := Abs(g - p1.1) - Abs(g - p2.1);
    if Abs(d) >= t1 then (if d < 0.0 then [p1.0] else [p2.0]) else []
  }

  /** The votes over a list of pairs of groups, in order. */
  function PairVotes(pairs: seq<((string, real), (string, real))>, g: real, t1: real): seq<string>
  {
    if |pairs| == 0 then []
    else PairVotes(pairs[..|pairs| - 1], g, t1) + PairVote(pairs[|pairs| - 1].0, pairs[|pairs| - 1].1, g, t1)
  }

  /** At most one vote per pair, each for a group of the pair. */
  lemma {:induction false} PairVotesBound(pairs: seq<((string, real), (string, real))>, g: real, t1: real)
    ensures |PairVotes(pairs, g, t1)| <= |pairs|
    ensures forall v :: v in PairVotes(pairs, g, t1) ==> exists k :: 0 <= k < |pairs| && (v == pairs[k].0.0 || v == pairs[k].1.0)
  {
    if |pairs| > 0 {
      var init := pairs[..|pairs| - 1];
      PairVotesBound(init, g, t1);
      forall v | v in PairVotes(pairs, g, t1)
        ensures exists k :: 0 <= k < |pairs| && (v == pairs[k].0.0 || v == pairs[k].1.0)
      {
        if v in PairVotes(init, g, t1) {
          var k :| 0 <= k < |init| && (v == init[k].0.0 || v == init[k].1.0);
          assert pairs[k] == init[k];
        } else {
          assert v == pairs[|pairs| - 1].0.0 || v == pairs[|pairs| - 1].1.0;
        }
      }
    }
  }

  /** `PredictorMariana.process_individual_genotype`: the loop over
      `combinations(freqs, 2)`. */
  method MarianaVote(freqs: seq<(string, real)>, g: real, t1: real) returns (votes: seq<string>)
    ensures votes == PairVotes(Combinations(freqs), g, t1)
  {
    var pairs := Combinations(freqs);
    votes := [];
    var i := 0;
    while i < |pairs|
      invariant 0 <= i <= |pairs|
      invariant votes == PairVotes(pairs[..i], g, t1)
    {
      assert pairs[..i + 1][..i] == pairs[..i];
      votes := votes + PairVote(pairs[i].0, pairs[i].1, g, t1);
      i := i + 1;
    }
    assert pairs[..i] == pairs;
  }

  /** Mariana's rule casts at most k(k-1)/2 votes over k groups, each for one
      of the groups. */
  lemma MarianaBound(freqs: seq<(string, real)>, g: real, t1: real)
    ensures 2 * |PairVotes(Combinations(freqs), g, t1)| <= |freqs| * (|freqs| - 1)
    ensures forall v :: v in PairVotes(Combinations(freqs), g, t1) ==> exists k :: 0 <= k < |freqs| && freqs[k].0 == v
  {
    var pairs := Combinations(freqs);
    PairVotesBound(pairs, g, t1);
    CombinationsLength(freqs);
    forall v | v in PairVotes(pairs, g, t1) ensures exists k :: 0 <= k < |freqs| && freqs[k].0 == v {
      var k :| 0 <= k < |pairs| && (v == pairs[k].0.0 || v == pairs[k].1.0);
      CombinationsParts(freqs, k);
      if v == pairs[k].0.0 {
        var j :| 0 <= j < |freqs| && freqs[j] == pairs[k].0;
      } else {
        var j :| 0 <= j < |freqs| && freqs[j] == pairs[k].1;
      }
    }
  }

  /** The votes one genotype ratio earns under a strategy. */
  function VotesFor(strategy: Strategy, freqs: seq<(string, real)>, g: real, t1: real): Result<seq<string>>
  {
    match strategy
    case Joao => JoaoVote(freqs, g, t1)
    case Mariana => Ok(PairVotes(Combinations(freqs), g, t1))
  }

  /** Only Joao's rule can raise, and only with fewer than two groups; every
      vote names a group; Joao casts at most one vote and Mariana at most one
      per pair of groups. */
  lemma VotesForMeaning(strategy: Strategy, freqs: seq<(string, real)>, g: real, t1: real)
    ensures var r := VotesFor(strategy, freqs, g, t1);
            && (r.Err? <==> strategy == Joao && |freqs| < 2)
            && (r.Err? ==> r.error == IndexError)
            && (r.Ok? ==> forall v :: v in r.value ==> exists k :: 0 <= k < |freqs| && freqs[k].0 == v)
            && (r.Ok? && strategy == Joao ==> |r.value| <= 1)
            && (r.Ok? && strategy == Mariana ==> 2 * |r.value| <= |freqs| * (|freqs| - 1))
  {
    match strategy {
      case Joao =>
        var r := JoaoVote(freqs, g, t1);
        if r.Ok? && |r.value| == 1 {
          var i :| 0 <= i < |freqs| && r.value[0] == freqs[i].0 &&
                   forall k :: 0 <= k < |freqs| ==> Abs(g - freqs[i].1) <= Abs(g - freqs[k].1);
        }
      case Mariana =>
        MarianaBound(freqs, g, t1);
    }
  }

  /** `process_individual_genotype` of the configured subclass. */
  method CastVotes(strategy: Strategy, freqs: seq<(string, real)>, g: real, t1: real) returns (r: Result<seq<string>>)
    ensures r == VotesFor(strategy, freqs, g, t1)
    ensures r.Err? <==> strategy == Joao && |freqs| < 2
    ensures r.Ok? ==> forall v :: v in r.value ==> exists k :: 0 <= k < |freqs| && freqs[k].0 == v
    ensures r.Ok? && strategy == Joao ==> |r.value| <= 1
    ensures r.Ok? && strategy == Mariana ==> 2 * |r.value| <= |freqs| * (|freqs| - 1)
  {
    match strategy {
      case Joao =>
        r := JoaoVote(freqs, g, t1);
      case Mariana =>
        var votes := MarianaVote(freqs, g, t1);
        r := Ok(votes);
    }
    VotesForMeaning(strategy, freqs, g, t1);
  }

  /** The structures after a row, and the error that stopped the row. */
  datatype Dealt = Dealt(structures: Option<map<string, seq<string>>>, failure: Option<Error>)

  /** The votes of each (individual, ratio) pair, individual by individual. */
  function Ballots(strategy: Strategy, t1: real, freqs: seq<(string, real)>, pairs: seq<(string, real)>)
    : (b: seq<(string, Result<seq<string>>)>)
    ensures |b| == |pairs|
    ensures forall k :: 0 <= k < |pairs| ==> b[k] == (pairs[k].0, VotesFor(strategy, freqs, pairs[k].1, t1))
  {
    seq(|pairs|, k requires 0 <= k < |pairs| => (pairs[k].0, VotesFor(strategy, freqs, pairs[k].1, t1)))
  }

  /** The individual loop of `process_data` over (individual, ratio) pairs:
      each individual's structure gets the votes of its ratio; voting can
      fail, and so can appending to a missing structure, though only when
      there is something to append. */
  function Deal(strategy: Strategy, t1: real, freqs: seq<(string, real)>,
                s: Option<map<string, seq<string>>>, pairs: seq<(string, real)>): (d: Dealt)
    ensures s.None? ==> d.structures.None?
    ensures s.Some? ==> d.structures.Some? && d.structures.value.Keys == s.value.Keys
  {
    Cast(s, Ballots(strategy, t1, freqs, pairs))
  }

  /** The votes of `ballots` appended one individual after the other. */
  function Cast(s: Option<map<string, seq<string>>>, ballots: seq<(string, Result<seq<string>>)>): (d: Dealt)
    ensures s.None? ==> d.structures.None?
    ensures s.Some? ==> d.structures.Some? && d.structures.value.Keys == s.value.Keys
  {
    if |ballots| == 0 then Dealt(s, None)
    else
      var d := Cast(s, ballots[..|ballots| - 1]);
      if d.failure.Some? then d else DealOne(d.structures, ballots[|ballots| - 1].0, ballots[|ballots| - 1].1)
  }

  /** The votes `votes` of individual `x` appended to the structures `s`. */
  function DealOne(s: Option<map<string, seq<string>>>, x: string, votes: Result<seq<string>>): (d: Dealt)
    ensures s.None? ==> d.structures.None?
    ensures s.Some? ==> d.structures.Some? && d.structures.value.Keys == s.value.Keys
  {
    match votes
    case Err(e) => Dealt(s, Some(e))
    case Ok(vs) =>
      if vs == [] then Dealt(s, None)
      else if s.None? then Dealt(s, Some(AttributeError))
      else if x !in s.value then Dealt(s, Some(KeyError))
      else Dealt(Some(s.value[x := s.value[x] + vs]), None)
  }

  /** The prefix of one more ballot. */
  lemma CastSnoc(s0: Option<map<string, seq<string>>>, ballots: seq<(string, Result<seq<string>>)>, i: nat)
    requires i < |ballots|
    requires Cast(s0, ballots[..i]).failure.None?
    ensures Cast(s0, ballots[..i + 1]) == DealOne(Cast(s0, ballots[..i]).structures, ballots[i].0, ballots[i].1)
  {
    assert ballots[..i + 1][..i] == ballots[..i];
  }

  /** Once a prefix of the ballots has failed, the rest changes nothing. */
  lemma {:induction false} CastStops(s: Option<map<string, seq<string>>>, ballots: seq<(string, Result<seq<string>>)>, n: nat)
    requires n <= |ballots|
    requires Cast(s, ballots[..n]).failure.Some?
    ensures Cast(s, ballots) == Cast(s, ballots[..n])
    decreases |ballots|
  {
    if n < |ballots| {
      var init := ballots[..|ballots| - 1];
      assert init[..n] == ballots[..n];
      CastStops(s, init, n);
    } else {
      assert ballots[..n] == ballots;
    }
  }

  /** The votes an individual collects over the pairs naming it, in order. */
  function Gathered(strategy: Strategy, t1: real, freqs: seq<(string, real)>, pairs: seq<(string, real)>, x: string): seq<string>
  {
    Collected(Ballots(strategy, t1, freqs, pairs), x)
  }

  /** The successful votes of the ballots of individual `x`, in order. */
  function Collected(ballots: seq<(string, Result<seq<string>>)>, x: string): seq<string>
  {
    if |ballots| == 0 then []
    else
      var rest := Collected(ballots[..|ballots| - 1], x);
      var (y, r) := ballots[|ballots| - 1];
      if y == x && r.Ok? then rest + r.value else rest
  }

  /** A row that raises nothing appends to each structure exactly the votes of
      the ratios paired with its individual, in order; an individual of no
      pair keeps its structure. */
  lemma DealAppends(strategy: Strategy, t1: real, freqs: seq<(string, real)>,
                    s: map<string, seq<string>>, pairs: seq<(string, real)>, x: string)
    requires x in s
    requires Deal(strategy, t1, freqs, Some(s), pairs).failure.None?
    ensures Deal(strategy, t1, freqs, Some(s), pairs).structures.value[x] == s[x] + Gathered(strategy, t1, freqs, pairs, x)
  {
    CastAppends(s, Ballots(strategy, t1, freqs, pairs), x);
  }

  lemma {:induction false} CastAppends(s: map<string, seq<string>>, ballots: seq<(string, Result<seq<string>>)>, x: string)
    requires x in s
    requires Cast(Some(s), ballots).failure.None?
    ensures Cast(Some(s), ballots).structures.value[x] == s[x] + Collected(ballots, x)
  {
    if |ballots| > 0 {
      var init := ballots[..|ballots| - 1];
      var (y, r) := ballots[|ballots| - 1];
      var d := Cast(Some(s), init);
      assert d.failure.None?;
      CastAppends(s, init, x);
      DealOneAppends(d.structures.value, y, r, x);
    }
  }

  /** One pair that raises nothing appends its votes to its own individual only. */
  lemma DealOneAppends(s: map<string, seq<string>>, y: string, r: Result<seq<string>>, x: string)
    requires x in s
    requires DealOne(Some(s), y, r).failure.None?
    ensures r.Ok?
    ensures DealOne(Some(s), y, r).structures.value[x] == s[x] + (if y == x then r.value else [])
  {
  }

  /** The votes for ratio `g`, from the cache when it holds them; a
      successful vote is cached. */
  method CachedVotes(strategy: Strategy, t1: real, freqs: seq<(string, real)>,
                     cache: map<real, seq<string>>, g: real)
    returns (r: Result<seq<string>>, cache': map<real, seq<string>>)
    requires forall h :: h in cache ==> VotesFor(strategy, freqs, h, t1) == Ok(cache[h])
    ensures r == VotesFor(strategy, freqs, g, t1)
    ensures forall h :: h in cache' ==> VotesFor(strategy, freqs, h, t1) == Ok(cache'[h])
  {
    cache' := cache;
    if g in cache {
      r := Ok(cache[g]);
    } else {
      r := CastVotes(strategy, freqs, g, t1);
      if r.Ok? {
        cache' := cache[g := r.value];
      }
    }
  }

  /** The individual loop with its `cache` of votes per ratio: a cached entry
      holds what voting would return, so the cache changes nothing. */
  method DealVotes(strategy: Strategy, t1: real, freqs: seq<(string, real)>,
                   s0: Option<map<string, seq<string>>>, pairs: seq<(string, real)>) returns (d: Dealt)
    ensures d == Deal(strategy, t1, freqs, s0, pairs)
  {
    ghost var ballots := Ballots(strategy, t1, freqs, pairs);
    var cache: map<real, seq<string>> := map[];
    var s := s0;
    var i := 0;
    while i < |pairs|
      invariant 0 <= i <= |pairs|
      invariant Cast(s0, ballots[..i]) == Dealt(s, None)
      invariant forall g :: g in cache ==> VotesFor(strategy, freqs, g, t1) == Ok(cache[g])
    {
      CastSnoc(s0, ballots, i);
      var x := pairs[i].0;
      var g := pairs[i].1;
      var r;
      r, cache := CachedVotes(strategy, t1, freqs, cache, g);
      var next := DealOne(s, x, r);
      if next.failure.Some? {
        CastStops(s0, ballots, i + 1);
        return next;
      }
      s := next.structures;
      i := i + 1;
    }
    assert ballots[..i] == ballots;
    return Dealt(s, None);
  }

  // ---------------------------------------------------------------------
  // Labels

  /** How often `x` was voted for. */
  function VoteCount(votes: seq<string>, x: string): nat {
    if |votes| == 0 then 0
    else VoteCount(votes[..|votes| - 1], x) + (if votes[|votes| - 1] == x then 1 else 0)
  }

  /** A group has votes iff it was voted for. */
  lemma {:induction false} VoteCountPositive(votes: seq<string>, x: string)
    ensures VoteCount(votes, x) > 0 <==> x in votes
  {
    if |votes| > 0 {
      var init := votes[..|votes| - 1];
      VoteCountPositive(init, x);
      assert votes == init + [votes[|votes| - 1]];
    }
  }

  /** The counts of the voted groups, in `Counter` key order. */
  function CountsOf(groups: seq<string>, votes: seq<string>): (cs: seq<nat>)
    ensures |cs| == |groups|
    ensures forall k :: 0 <= k < |groups| ==> cs[k] == VoteCount(votes, groups[k])
  {
    seq(|groups|, k requires 0 <= k < |groups| => VoteCount(votes, groups[k]))
  }

  /** The first position of a greatest count: the head of `most_common`,
      whose sort is stable. */
  function TopIndex(cs: seq<nat>): (i: nat)
    requires |cs| > 0
    ensures i < |cs|
    ensures forall k :: 0 <= k < |cs| ==> cs[k] <= cs[i]
    ensures forall k :: 0 <= k < i ==> cs[k] < cs[i]
  {
    if |cs| == 1 then 0
    else
      var j := TopIndex(cs[..|cs| - 1]);
      if cs[|cs| - 1] > cs[j] then |cs| - 1 else j
  }

  /** The greatest count. */
  function MaxOf(s: seq<nat>): (m: nat)
    requires |s| > 0
    ensures exists k :: 0 <= k < |s| && s[k] == m
    ensures forall k :: 0 <= k < |s| ==> s[k] <= m
  {
    if |s| == 1 then s[0]
    else
      var m := MaxOf(s[..|s| - 1]);
      if s[|s| - 1] > m then s[|s| - 1] else m
  }

  /** The margin `terminate` compares with `t2`: the lead of the top count,
      relative to the top count when `0 < t2 < 1`. */
  function Margin(lead: int, top: nat, t2: real): real
    requires top > 0
  {
    if 0.0 < t2 < 1.0 then lead as real / top as real else lead as real
  }

  /** A smaller lead is a smaller margin. */
  lemma MarginMonotone(a: int, b: int, top: nat, t2: real)
    requires top > 0 && a <= b
    ensures Margin(a, top, t2) <= Margin(b, top, t2)
  {
    if 0.0 < t2 < 1.0 {
      var q := (b - a) as real / top as real;
      assert q * top as real == (b - a) as real;
      assert Margin(b, top, t2) - Margin(a, top, t2) == q;
    }
  }

  /** The head of `most_common` when it leads the runner-up by a margin of
      at least `t2`, else `---`. */
  function Pick(groups: seq<string>, cs: seq<nat>, t2: real): (w: string)
    requires |cs| == |groups| >= 2 && cs[TopIndex(cs)] > 0
    ensures w == groups[TopIndex(cs)] || w == UNLABELLED
  {
    var i := TopIndex(cs);
    if Leads(cs, i, t2) then groups[i] else UNLABELLED
  }

  /** `cs[i]` leads the greatest of the other counts by a margin of at least `t2`. */
  predicate Leads(cs: seq<nat>, i: nat, t2: real)
    requires |cs| >= 2 && i < |cs| && cs[i] > 0
  {
    Margin(cs[i] as int - MaxOf(cs[..i] + cs[i + 1..]), cs[i], t2) >= t2
  }

  /** Fewer than two distinct groups were voted for. */
  predicate TooFewGroups(votes: seq<string>) {
    |Unique(votes)| < 2
  }

  /** `terminate` for one individual: the most voted group when it leads the
      runner-up by a margin of at least `t2`, else `---`; fewer than two
      distinct voted groups is an index error. */
  function Label(votes: seq<string>, t2: real): (r: Result<string>)
    ensures r.Err? <==> TooFewGroups(votes)
    ensures r.Err? ==> r.error == IndexError
    ensures r.Ok? ==> r.value == UNLABELLED || r.value in votes
  {
    var groups := Unique(votes);
    if |groups| < 2 then Err(IndexError)
    else
      var cs := CountsOf(groups, votes);
      TopCounted(votes, groups, cs);
      Ok(Pick(groups, cs, t2))
  }

  /** A label other than `---` is a most voted group. */
  lemma LabelMostVoted(votes: seq<string>, t2: real, x: string)
    requires Label(votes, t2).Ok? && Label(votes, t2).value != UNLABELLED
    requires x in votes
    ensures VoteCount(votes, x) <= VoteCount(votes, Label(votes, t2).value)
  {
    TopCounted(votes, Unique(votes), CountsOf(Unique(votes), votes));
  }

  /** The most voted group has votes, and no voted group has more. */
  lemma TopCounted(votes: seq<string>, groups: seq<string>, cs: seq<nat>)
    requires groups == Unique(votes) && |groups| > 0
    requires cs == CountsOf(groups, votes)
    ensures groups[TopIndex(cs)] in votes && cs[TopIndex(cs)] > 0
    ensures forall x :: x in votes ==> VoteCount(votes, x) <= VoteCount(votes, groups[TopIndex(cs)])
  {
    var i := TopIndex(cs);
    VoteCountPositive(votes, groups[i]);
    forall x | x in votes ensures VoteCount(votes, x) <= VoteCount(votes, groups[i]) {
      var k :| 0 <= k < |groups| && groups[k] == x;
    }
  }

  /** `w` leads every other voted group by a margin of at least `t2`. */
  predicate Decisive(votes: seq<string>, w: string, t2: real)
    requires VoteCount(votes, w) > 0
  {
    forall x :: x in votes && x != w ==> Margin(VoteCount(votes, w) as int - VoteCount(votes, x), VoteCount(votes, w), t2) >= t2
  }

  /** For the first group `w`, in order of first vote, with the greatest
      count, the label is `w` iff `w`'s margin over every other voted group
      reaches `t2`, and `---` otherwise. */
  lemma {:induction false} LabelChoosesTop(votes: seq<string>, t2: real, i: nat)
    requires |Unique(votes)| >= 2 && i < |Unique(votes)|
    requires forall k :: 0 <= k < |Unique(votes)| ==> VoteCount(votes, Unique(votes)[k]) <= VoteCount(votes, Unique(votes)[i])
    requires forall k :: 0 <= k < i ==> VoteCount(votes, Unique(votes)[k]) < VoteCount(votes, Unique(votes)[i])
    ensures VoteCount(votes, Unique(votes)[i]) > 0
    ensures Label(votes, t2) == if Decisive(votes, Unique(votes)[i], t2) then Ok(Unique(votes)[i]) else Ok(UNLABELLED)
  {
    var groups := Unique(votes);
    var cs := CountsOf(groups, votes);
    TopIsFirstGreatest(cs, i);
    TopCounted(votes, groups, cs);
    PickLeads(groups, cs, i, t2);
    OthersMargin(votes, groups, cs, i, t2);
  }

  /** The pick among the counts is the top group exactly when every other
      count trails it. */
  lemma PickLeads(groups: seq<string>, cs: seq<nat>, i: nat, t2: real)
    requires |cs| == |groups| >= 2 && TopIndex(cs) == i && cs[i] > 0
    ensures Pick(groups, cs, t2) == if Trails(cs, i, t2) then groups[i] else UNLABELLED
  {
    LeadMargin(cs, i, t2);
  }

  /** `TopIndex` is the first position of a greatest count. */
  lemma TopIsFirstGreatest(cs: seq<nat>, i: nat)
    requires i < |cs|
    requires forall k :: 0 <= k < |cs| ==> cs[k] <= cs[i]
    requires forall k :: 0 <= k < i ==> cs[k] < cs[i]
    ensures TopIndex(cs) == i
  {
    var j := TopIndex(cs);
    assert cs[i] <= cs[j] && cs[j] <= cs[i];
  }

  /** Every count other than `cs[i]` trails it by a margin of at least `t2`. */
  predicate Trails(cs: seq<nat>, i: nat, t2: real)
    requires i < |cs| && cs[i] > 0
  {
    forall k :: 0 <= k < |cs| && k != i ==> Margin(cs[i] as int - cs[k], cs[i], t2) >= t2
  }

  /** Quantifying over the other voted groups is quantifying over the other
      positions of the group list. */
  lemma OthersMargin(votes: seq<string>, groups: seq<string>, cs: seq<nat>, i: nat, t2: real)
    requires Distinct(groups) && i < |groups| && |cs| == |groups| && cs[i] > 0
    requires forall x :: x in votes <==> x in groups
    requires forall k :: 0 <= k < |groups| ==> cs[k] == VoteCount(votes, groups[k])
    ensures cs[i] == VoteCount(votes, groups[i])
    ensures Decisive(votes, groups[i], t2) <==>
            Trails(cs, i, t2)
  {
    if Trails(cs, i, t2) {
      forall x | x in votes && x != groups[i] ensures Margin(cs[i] as int - VoteCount(votes, x), cs[i], t2) >= t2 {
        var k :| 0 <= k < |groups| && groups[k] == x;
      }
    }
    if Decisive(votes, groups[i], t2) {
      forall k | 0 <= k < |cs| && k != i ensures Margin(cs[i] as int - cs[k], cs[i], t2) >= t2 {
        assert groups[k] in votes && groups[k] != groups[i];
      }
    }
  }

  /** The greatest of the other counts trails `cs[i]` by a margin of at least
      `t2` iff each of them does. */
  lemma LeadMargin(cs: seq<nat>, i: nat, t2: real)
    requires |cs| >= 2 && i < |cs| && cs[i] > 0
    ensures Leads(cs, i, t2) <==>
            Trails(cs, i, t2)
  {
    var rest := cs[..i] + cs[i + 1..];
    var second := MaxOf(rest);
    if Margin(cs[i] as int - second, cs[i], t2) >= t2 {
      forall k | 0 <= k < |cs| && k != i ensures Margin(cs[i] as int - cs[k], cs[i], t2) >= t2 {
        if k < i { assert rest[k] == cs[k]; } else { assert rest[k - 1] == cs[k]; }
        MarginMonotone(cs[i] as int - second, cs[i] as int - cs[k], cs[i], t2);
      }
    } else {
      var l :| 0 <= l < |rest| && rest[l] == second;
      var k := if l < i then l else l + 1;
      assert cs[k] == second && k != i;
    }
  }

  /** The labels after `terminate`'s loop over `order`, and the error that
      stopped it; the labels of the individuals before the failing one stay set. */
  function LabelsAfter(labels: map<string, string>, order: seq<string>, structs: map<string, seq<string>>, t2: real)
    : (r: (map<string, string>, Option<Error>))
    requires forall k :: 0 <= k < |order| ==> order[k] in structs
  {
    if |order| == 0 then (labels, None)
    else
      var r := LabelsAfter(labels, order[..|order| - 1], structs, t2);
      var x := order[|order| - 1];
      if r.1.Some? then r
      else
        match Label(structs[x], t2)
        case Err(e) => (r.0, Some(e))
        case Ok(l) => (r.0[x := l], None)
  }

  /** `terminate` fails iff some individual has fewer than two distinct voted
      groups, and then with an index error. */
  lemma {:induction false} LabelsAfterFails(labels: map<string, string>, order: seq<string>,
                                            structs: map<string, seq<string>>, t2: real)
    requires forall k :: 0 <= k < |order| ==> order[k] in structs
    ensures LabelsAfter(labels, order, structs, t2).1.Some? <==>
            exists k :: 0 <= k < |order| && TooFewGroups(structs[order[k]])
    ensures LabelsAfter(labels, order, structs, t2).1.Some? ==> LabelsAfter(labels, order, structs, t2).1 == Some(IndexError)
  {
    if |order| > 0 {
      var init := order[..|order| - 1];
      LabelsAfterFails(labels, init, structs, t2);
      LabelsAfterStep(labels, order, structs, t2);
      TooFewSnoc(order, structs);
    }
  }

  /** Some individual of `order` has too few groups iff one before the last
      has, or the last has. */
  lemma TooFewSnoc(order: seq<string>, structs: map<string, seq<string>>)
    requires |order| > 0 && forall k :: 0 <= k < |order| ==> order[k] in structs
    ensures var init := order[..|order| - 1];
            (exists k :: 0 <= k < |order| && TooFewGroups(structs[order[k]])) <==>
            (exists k :: 0 <= k < |init| && TooFewGroups(structs[init[k]])) ||
            TooFewGroups(structs[order[|order| - 1]])
  {
    var init := order[..|order| - 1];
    if exists k :: 0 <= k < |init| && TooFewGroups(structs[init[k]]) {
      var k :| 0 <= k < |init| && TooFewGroups(structs[init[k]]);
      assert order[k] == init[k];
    }
    if exists k :: 0 <= k < |order| && TooFewGroups(structs[order[k]]) {
      var k :| 0 <= k < |order| && TooFewGroups(structs[order[k]]);
      if k < |order| - 1 { assert init[k] == order[k]; }
    }
  }

  /** One more individual fails the loop iff the loop failed before or its
      own votes name fewer than two groups. */
  lemma LabelsAfterStep(labels: map<string, string>, order: seq<string>,
                        structs: map<string, seq<string>>, t2: real)
    requires |order| > 0 && forall k :: 0 <= k < |order| ==> order[k] in structs
    ensures var before := LabelsAfter(labels, order[..|order| - 1], structs, t2).1;
            var after := LabelsAfter(labels, order, structs, t2).1;
            && (after.Some? <==> before.Some? || TooFewGroups(structs[order[|order| - 1]]))
            && (after.Some? && before.None? ==> after == Some(IndexError))
            && (before.Some? ==> after == before)
  {
  }

  /** When `terminate` raises nothing, every individual of the loop gets the
      label of its own votes. */
  lemma {:induction false} LabelsAfterSets(labels: map<string, string>, order: seq<string>,
                                           structs: map<string, seq<string>>, t2: real)
    requires forall k :: 0 <= k < |order| ==> order[k] in structs
    requires LabelsAfter(labels, order, structs, t2).1.None?
    ensures forall k :: 0 <= k < |order| ==>
              order[k] in LabelsAfter(labels, order, structs, t2).0 &&
              Label(structs[order[k]], t2) == Ok(LabelsAfter(labels, order, structs, t2).0[order[k]])
  {
    if |order| > 0 {
      var init := order[..|order| - 1];
      var r := LabelsAfter(labels, init, structs, t2);
      var x := order[|order| - 1];
      assert r.1.None? && Label(structs[x], t2).Ok?;
      LabelsAfterSets(labels, init, structs, t2);
      var after := LabelsAfter(labels, order, structs, t2).0;
      assert after == r.0[x := Label(structs[x], t2).value];
      forall k | 0 <= k < |order|
        ensures order[k] in after && Label(structs[order[k]], t2) == Ok(after[order[k]])
      {
        if k < |order| - 1 && order[k] != x {
          assert init[k] == order[k];
        }
      }
    }
  }

  /** `terminate`'s loop over the structures. */
  method AssignLabels(labels0: map<string, string>, order: seq<string>, structs: map<string, seq<string>>, t2: real)
    returns (labels: map<string, string>, failure: Option<Error>)
    requires forall k :: 0 <= k < |order| ==> order[k] in structs
    ensures (labels, failure) == LabelsAfter(labels0, order, structs, t2)
  {
    labels := labels0;
    var i := 0;
    while i < |order|
      invariant 0 <= i <= |order|
      invariant LabelsAfter(labels0, order[..i], structs, t2) == (labels, None)
    {
      assert order[..i + 1][..i] == order[..i];
      var r := Label(structs[order[i]], t2);
      if r.Err? {
        LabelsStop(labels0, order, structs, t2, i + 1);
        return labels, Some(r.error);
      }
      labels := labels[order[i] := r.value];
      i := i + 1;
    }
    assert order[..i] == order;
    failure := None;
  }

  /** Once a prefix of the loop has failed, the rest changes nothing. */
  lemma {:induction false} LabelsStop(labels: map<string, string>, order: seq<string>,
                                      structs: map<string, seq<string>>, t2: real, n: nat)
    requires forall k :: 0 <= k < |order| ==> order[k] in structs
    requires n <= |order|
    requires LabelsAfter(labels, order[..n], structs, t2).1.Some?
    ensures LabelsAfter(labels, order, structs, t2) == LabelsAfter(labels, order[..n], structs, t2)
    decreases |order|
  {
    if n < |order| {
      var init := order[..|order| - 1];
      assert init[..n] == order[..n];
      LabelsStop(labels, init, structs, t2, n);
    } else {
      assert order[..n] == order;
    }
  }

  // ---------------------------------------------------------------------
  // The predictor

  /** `population_labels`: each header column's group, or `---` for an
      individual the population does not know. */
  function PopulationLabels(toGroup: map<string, string>, header: seq<string>): (r: seq<string>)
    ensures |r| == |header|
  {
    seq(|header|, k requires 0 <= k < |header| => if header[k] in toGroup then toGroup[header[k]] else UNLABELLED)
  }

  /** Over a registry built by the calls in `log`, a column is labelled with a
      group it was added with, and an individual never added is `---`. */
  lemma PopulationLabelsOfLog(log: seq<Entry>, header: seq<string>, k: nat)
    requires k < |header|
    ensures var l := PopulationLabels(ForwardOf(log), header)[k];
            && (header[k] !in IdsOf(log) ==> l == UNLABELLED)
            && (l != UNLABELLED ==> (header[k], l) in log)
  {
    ForwardKeys(log, header[k]);
    if header[k] in ForwardOf(log) {
      ForwardHasEntry(log, header[k]);
    }
  }

  /** What `process_data` does to the state once the row has passed the
      polymorphism filter: the new `from_info`, the structures, and the
      error that stopped the row, if any. */
  datatype RowStep = RowStep(fromInfo: bool, structures: Option<map<string, seq<string>>>, failure: Option<Error>)

  /** `process_data` after the filter. The ratios of all columns give the
      group frequencies; those of the configured columns are paired, in key
      order, with the configured individuals (`configured` says whether
      `set_populations` ever ran), whose structures get their votes. */
  function PredictRow(strategy: Strategy, t1: real, info: string -> Option<seq<(string, real)>>,
                      fromInfo: bool, labels: Option<seq<string>>, keyOrder: seq<string>, indices: map<string, nat>,
                      configured: bool, individuals: Option<seq<string>>,
                      structures: Option<map<string, seq<string>>>, fixed: seq<string>, data: seq<string>): (r: RowStep)
    requires forall k :: 0 <= k < |keyOrder| ==> keyOrder[k] in indices
    // the flag never turns on, and no structure is added or removed
    ensures r.fromInfo ==> fromInfo
    ensures structures.None? ==> r.structures.None?
    ensures structures.Some? ==> r.structures.Some? && r.structures.value.Keys == structures.value.Keys
  {
    var ratios := Ratios(data);
    var (freqs, flag) := GetFrequencies(info, fromInfo, fixed, labels, ratios);
    if freqs.Err? then RowStep(flag, structures, Some(freqs.error))
    else
      match FilterGenotypes(ratios, keyOrder, indices)
      case Err(e) => RowStep(flag, structures, Some(e))
      case Ok(genotypes) =>
        if !configured then RowStep(flag, structures, Some(AttributeError))
        else if individuals.None? then RowStep(flag, structures, Some(TypeError))
        else
          var d := Deal(strategy, t1, freqs.value, structures, Zip(individuals.value, genotypes));
          RowStep(flag, d.structures, d.failure)
  }

  /** A row that raises nothing appends to each individual's structure the
      votes of the ratios paired with it, in order. */
  lemma PredictRowAppends(strategy: Strategy, t1: real, info: string -> Option<seq<(string, real)>>,
                          fromInfo: bool, labels: Option<seq<string>>, keyOrder: seq<string>, indices: map<string, nat>,
                          individuals: seq<string>, structures: map<string, seq<string>>,
                          fixed: seq<string>, data: seq<string>, x: string)
    requires forall k :: 0 <= k < |keyOrder| ==> keyOrder[k] in indices
    requires x in structures
    requires PredictRow(strategy, t1, info, fromInfo, labels, keyOrder, indices, true, Some(individuals),
                        Some(structures), fixed, data).failure.None?
    ensures var freqs := GetFrequencies(info, fromInfo, fixed, labels, Ratios(data)).0;
            var genotypes := FilterGenotypes(Ratios(data), keyOrder, indices);
            && freqs.Ok? && genotypes.Ok?
            && PredictRow(strategy, t1, info, fromInfo, labels, keyOrder, indices, true, Some(individuals),
                          Some(structures), fixed, data).structures.value[x] ==
               structures[x] + Gathered(strategy, t1, freqs.value, Zip(individuals, genotypes.value), x)
  {
    var ratios := Ratios(data);
    var freqs := GetFrequencies(info, fromInfo, fixed, labels, ratios).0;
    var genotypes := FilterGenotypes(ratios, keyOrder, indices);
    DealAppends(strategy, t1, freqs.value, structures, Zip(individuals, genotypes.value), x);
  }

  /** `get_frequencies`, with the `counts` and `totals` loop when the INFO
      field is not used. */
  method GetFrequenciesOf(info: string -> Option<seq<(string, real)>>, fromInfo: bool, fixed: seq<string>,
                          labels: Option<seq<string>>, ratios: seq<real>)
    returns (freqs: Result<seq<(string, real)>>, flag: bool)
    ensures (freqs, flag) == GetFrequencies(info, fromInfo, fixed, labels, ratios)
  {
    if fromInfo {
      if |fixed| <= INFO_COLUMN {
        return Err(IndexError), true;
      }
      var fromField := info(fixed[INFO_COLUMN]);
      if fromField.Some? {
        return Ok(fromField.value), true;
      }
    }
    if labels.None? {
      return Err(AttributeError), false;
    }
    var computed := ComputeFrequencies(labels.value, ratios);
    return Ok(computed), false;
  }

  /** `process_data` after the filter, with the individual loop and its cache. */
  method ProcessRow(strategy: Strategy, t1: real, info: string -> Option<seq<(string, real)>>,
                    fromInfo: bool, labels: Option<seq<string>>, keyOrder: seq<string>, indices: map<string, nat>,
                    configured: bool, individuals: Option<seq<string>>,
                    structures: Option<map<string, seq<string>>>, fixed: seq<string>, data: seq<string>)
    returns (r: RowStep)
    requires forall k :: 0 <= k < |keyOrder| ==> keyOrder[k] in indices
    ensures r == PredictRow(strategy, t1, info, fromInfo, labels, keyOrder, indices, configured, individuals,
                            structures, fixed, data)
  {
    var ratios := Ratios(data);
    var freqs, flag := GetFrequenciesOf(info, fromInfo, fixed, labels, ratios);
    if freqs.Err? {
      return RowStep(flag, structures, Some(freqs.error));
    }
    var genotypes := FilterGenotypes(ratios, keyOrder, indices);
    if genotypes.Err? {
      return RowStep(flag, structures, Some(genotypes.error));
    }
    if !configured {
      return RowStep(flag, structures, Some(AttributeError));
    }
    if individuals.None? {
      return RowStep(flag, structures, Some(TypeError));
    }
    var d := DealVotes(strategy, t1, freqs.value, structures, Zip(individuals.value, genotypes.value));
    r := RowStep(flag, d.structures, d.failure);
  }

  /** `set(groups) == SUPERPOPULATIONS`. */
  function SuperPopulations(groups: seq<string>): (b: bool)
    ensures b <==> forall g :: g in groups <==> g in SUPERPOPULATIONS
  {
    (set g | g in groups) == SUPERPOPULATIONS
  }

  /** `PredictorJoao` or `PredictorMariana`, by `strategy`. `configured` says
      whether `set_populations` has run, which sets `individuals` and the
      population's `individual_to_group` (`toGroup`); `populationLabels` and
      `structures` are `None` until a header has been read, and
      `structureOrder` is the key order of `structures`. The INFO parser is
      the parameter `info`. */
  class Predictor {
    const strategy: Strategy
    const t1: real
    const t2: real
    const info: string -> Option<seq<(string, real)>>
    var hasGenotypeField: Option<bool>
    var configured: bool
    var toGroup: map<string, string>
    var individuals: Option<seq<string>>
    var polymorphisms: Option<set<string>>
    var polymorphismCount: nat
    var indices: map<string, nat>
    var keyOrder: seq<string>            // key order of individual_indeces
    var populationLabels: Option<seq<string>>
    var fromInfo: bool
    var structures: Option<map<string, seq<string>>>
    var structureOrder: seq<string>
    var labels: map<string, string>
    var terminateEarly: bool

    ghost predicate Valid()
      reads this
    {
      KeyedBy(indices, keyOrder) && StructuresOrdered()
    }

    /** `structures` has a key for each entry of its key order, and no other. */
    ghost predicate StructuresOrdered()
      reads this`structures, this`structureOrder
    {
      && Distinct(structureOrder)
      && (structures.None? ==> structureOrder == [])
      && (structures.Some? ==> forall x :: x in structures.value <==> x in structureOrder)
    }

    constructor (strategy: Strategy, t1: real, t2: real, info: string -> Option<seq<(string, real)>>)
      ensures Valid()
      ensures this.strategy == strategy && this.t1 == t1 && this.t2 == t2 && this.info == info
      ensures hasGenotypeField == None && !configured && polymorphisms == None && polymorphismCount == 0
      ensures indices == map[] && keyOrder == [] && populationLabels == None && !fromInfo
      ensures structures == None && labels == map[] && !terminateEarly
    {
      this.strategy, this.t1, this.t2, this.info := strategy, t1, t2, info;
      hasGenotypeField := None;
      configured := false;
      toGroup := map[];
      individuals := None;
      polymorphisms := None;
      polymorphismCount := 0;
      indices := map[];
      keyOrder := [];
      populationLabels := None;
      fromInfo := false;
      structures := None;
      structureOrder := [];
      labels := map[];
      terminateEarly := false;
    }

    /** `set_populations(population, individuals)`: the INFO field is used
        exactly when the population's groups are the five super-populations. */
    method SetPopulations(population: Population, individuals: Option<seq<string>>)
      requires Valid()
      modifies this`configured, this`toGroup, this`individuals, this`fromInfo
      ensures Valid()
      ensures configured && toGroup == population.individualToGroup && this.individuals == individuals
      ensures fromInfo <==> forall g :: g in population.groupOrder <==> g in SUPERPOPULATIONS
    {
      configured := true;
      toGroup := population.individualToGroup;
      this.individuals := individuals;
      fromInfo := SuperPopulations(population.groupOrder);
    }

    /** `set_polymorphisms(ids)`: only rows with one of these identifiers count. */
    method SetPolymorphisms(ids: seq<string>)
      requires Valid()
      modifies this`polymorphisms
      ensures Valid()
      ensures polymorphisms.Some? && forall x :: x in polymorphisms.value <==> x in ids
    {
      polymorphisms := Some(set x | x in ids);
    }

    /** `process_individuals(header)`: without a configured list the header's
        individuals are used; every column gets its population label, every
        configured individual an empty structure; the configured individuals
        found in the header are (re)mapped to their columns, and the first
        one missing from the header raises. */
    method ProcessIndividuals(header: seq<string>) returns (outcome: Outcome)
      requires Valid()
      modifies this`individuals, this`populationLabels, this`structures, this`structureOrder
      modifies this`indices, this`keyOrder
      ensures !configured ==> outcome == Fail(AttributeError) && unchanged(this)
      ensures Valid()
      ensures configured ==>
                var wanted := if old(individuals).None? then header else old(individuals).value;
                && individuals == Some(wanted)
                && populationLabels == Some(PopulationLabels(toGroup, header))
                && structures == Some(EmptyLists(wanted)) && structureOrder == Unique(wanted)
                && indices == old(indices) + HeaderIndex(header, wanted)
                && keyOrder == Unique(old(keyOrder) + Selected(header, wanted))
                && outcome == (if Missing(wanted, header, |indices.Keys|).Some?
                               then Fail(Missing(wanted, header, |indices.Keys|).value) else Pass)
    {
      if !configured {
        return Fail(AttributeError);
      }
      outcome := ReadHeader(header);
    }

    /** `process_individuals` once `set_populations` has run. */
    method ReadHeader(header: seq<string>) returns (outcome: Outcome)
      requires Valid() && configured
      modifies this`individuals, this`populationLabels, this`structures, this`structureOrder
      modifies this`indices, this`keyOrder
      ensures Valid()
      ensures var wanted := if old(individuals).None? then header else old(individuals).value;
                && individuals == Some(wanted)
                && populationLabels == Some(PopulationLabels(toGroup, header))
                && structures == Some(EmptyLists(wanted)) && structureOrder == Unique(wanted)
                && indices == old(indices) + HeaderIndex(header, wanted)
                && keyOrder == Unique(old(keyOrder) + Selected(header, wanted))
                && outcome == (if Missing(wanted, header, |indices.Keys|).Some?
                               then Fail(Missing(wanted, header, |indices.Keys|).value) else Pass)
    {
      var wanted := if individuals.None? then header else individuals.value;
      Restructure(wanted, header);
      ghost var built := (individuals, populationLabels, structures, structureOrder);
      outcome := MapHeaderOf(wanted, header);
      assert (individuals, populationLabels, structures, structureOrder) == built;
    }

    /** The population labels of the header's columns and one empty structure
        per configured individual. */
    method Restructure(wanted: seq<string>, header: seq<string>)
      requires Valid()
      modifies this`individuals, this`populationLabels, this`structures, this`structureOrder
      ensures Valid()
      ensures individuals == Some(wanted)
      ensures populationLabels == Some(PopulationLabels(toGroup, header))
      ensures structures == Some(EmptyLists(wanted)) && structureOrder == Unique(wanted)
    {
      individuals := Some(wanted);
      populationLabels := Some(PopulationLabels(toGroup, header));
      structures := Some(EmptyLists(wanted));
      structureOrder := Unique(wanted);
    }

    /** The header loop of `process_individuals` and its missing-individual check. */
    method MapHeaderOf(wanted: seq<string>, header: seq<string>) returns (outcome: Outcome)
      requires KeyedBy(indices, keyOrder)
      modifies this`indices, this`keyOrder
      ensures KeyedBy(indices, keyOrder)
      ensures indices == old(indices) + HeaderIndex(header, wanted)
      ensures keyOrder == Unique(old(keyOrder) + Selected(header, wanted))
      ensures outcome == (if Missing(wanted, header, |indices.Keys|).Some?
                          then Fail(Missing(wanted, header, |indices.Keys|).value) else Pass)
    {
      indices, keyOrder := MapHeader(indices, keyOrder, header, wanted);
      var missing := MissingFrom(wanted, header, |indices.Keys|);
      outcome := if missing.Some? then Fail(missing.value) else Pass;
    }

    /** `process_data(fixed, format, data)`: with a polymorphism list, a row
        whose identifier is not listed is skipped and a listed one counted;
        the row then votes, and once every listed polymorphism has been seen
        `terminate_early` is set. */
    method ProcessData(fixed: seq<string>, data: seq<string>) returns (outcome: Outcome)
      requires Valid()
      modifies this`polymorphismCount, this`fromInfo, this`structures, this`terminateEarly
      ensures Valid()
      // a short row raises, an unlisted one is skipped, each leaving the state as it was
      ensures polymorphisms.Some? && |fixed| <= ID_COLUMN ==>
                outcome == Fail(IndexError) && unchanged(this)
      ensures polymorphisms.Some? && |fixed| > ID_COLUMN && fixed[ID_COLUMN] !in polymorphisms.value ==>
                outcome == Pass && unchanged(this)
      ensures polymorphisms.None? || (|fixed| > ID_COLUMN && fixed[ID_COLUMN] in polymorphisms.value) ==>
                var r := PredictRow(strategy, t1, info, old(fromInfo), populationLabels, keyOrder, indices,
                                    configured, individuals, old(structures), fixed, data);
                && polymorphismCount == old(polymorphismCount) + (if polymorphisms.Some? then 1 else 0)
                && fromInfo == r.fromInfo
                && structures == r.structures
                && outcome == (if r.failure.None? then Pass else Fail(r.failure.value))
                && terminateEarly == (old(terminateEarly) ||
                                      (r.failure.None? && polymorphisms.Some? && |polymorphisms.value| > 0 &&
                                       polymorphismCount == |polymorphisms.value|))
    {
      if polymorphisms.Some? {
        if |fixed| <= ID_COLUMN {
          return Fail(IndexError);
        }
        if fixed[ID_COLUMN] !in polymorphisms.value {
          return Pass;
        }
        polymorphismCount := polymorphismCount + 1;
      }
      var r := ProcessRow(strategy, t1, info, fromInfo, populationLabels, keyOrder, indices,
                          configured, individuals, structures, fixed, data);
      fromInfo, structures := r.fromInfo, r.structures;
      if r.failure.Some? {
        return Fail(r.failure.value);
      }
      if polymorphisms.Some? && |polymorphisms.value| > 0 && polymorphismCount == |polymorphisms.value| {
        terminateEarly := true;
      }
      outcome := Pass;
    }

    /** `terminate`: each individual, in key order of the structures, is
        labelled from its votes; a loop that raises keeps the labels set
        before it. */
    method Terminate() returns (outcome: Outcome)
      requires Valid()
      modifies this`labels
      ensures Valid()
      ensures structures.None? ==> outcome == Fail(AttributeError) && labels == old(labels)
      ensures structures.Some? ==>
                var r := LabelsAfter(old(labels), structureOrder, structures.value, t2);
                && labels == r.0
                && outcome == (if r.1.None? then Pass else Fail(r.1.value))
    {
      if structures.None? {
        return Fail(AttributeError);
      }
      var failure;
      labels, failure := AssignLabels(labels, structureOrder, structures.value, t2);
      outcome := if failure.None? then Pass else Fail(failure.value);
    }

    /** The predictor's hook for one event of the dispatcher: `process_meta`
        does nothing, the header and the data rows go to their methods. */
    method Handle(e: Event) returns (outcome: Outcome)
      requires Valid()
      modifies this
      ensures Valid()
      ensures hasGenotypeField == old(hasGenotypeField)
      ensures !e.Individuals? && !e.Data? ==> outcome == Pass && unchanged(this)
      // a header goes to `process_individuals`
      ensures e.Individuals? && !configured ==> outcome == Fail(AttributeError) && unchanged(this)
      ensures e.Individuals? && configured ==>
                var wanted := if old(individuals).None? then e.names else old(individuals).value;
                && structures == Some(EmptyLists(wanted))
                && indices == old(indices) + HeaderIndex(e.names, wanted)
      // a listed (or unfiltered) data row goes to `process_data` and votes
      ensures e.Data? ==> indices == old(indices) && individuals == old(individuals)
      ensures e.Data? && (polymorphisms.None? || (|e.fixed| > ID_COLUMN && e.fixed[ID_COLUMN] in polymorphisms.value)) ==>
                structures == PredictRow(strategy, t1, info, old(fromInfo), old(populationLabels), old(keyOrder),
                                         old(indices), old(configured), old(individuals), old(structures),
                                         e.fixed, e.data).structures
    {
      outcome := Pass;
      match e {
        case Individuals(names) =>
          outcome := ProcessIndividuals(names);
        case Data(fixed, _, data) =>
          outcome := ProcessData(fixed, data);
        case _ =>
      }
    }

    /** One line of `run`: the dispatcher cuts it, then the hook it selects runs. */
    method Step(line: string) returns (outcome: Outcome)
      requires Valid()
      modifies this
      ensures Valid()
      ensures Dispatch(line, old(hasGenotypeField)).Err? ==> outcome == Fail(Dispatch(line, old(hasGenotypeField)).error)
      ensures outcome.Pass? ==> hasGenotypeField == Dispatch(line, old(hasGenotypeField)).value.1
      // the hook of the line's kind runs
      ensures Dispatch(line, old(hasGenotypeField)).Ok? ==>
                var e := Dispatch(line, old(hasGenotypeField)).value.0;
                && (e.Meta? ==> outcome == Pass && indices == old(indices) && structures == old(structures))
                && (e.Individuals? && configured ==>
                      var wanted := if old(individuals).None? then e.names else old(individuals).value;
                      structures == Some(EmptyLists(wanted)) && indices == old(indices) + HeaderIndex(e.names, wanted))
                && (e.Data? ==> indices == old(indices))
                && (e.Data? && (polymorphisms.None? || (|e.fixed| > ID_COLUMN && e.fixed[ID_COLUMN] in polymorphisms.value)) ==>
                      structures == PredictRow(strategy, t1, info, old(fromInfo), old(populationLabels), old(keyOrder),
                                               old(indices), old(configured), old(individuals), old(structures),
                                               e.fixed, e.data).structures)
    {
      var r := Dispatch(line, hasGenotypeField);
      if r.Err? {
        return Fail(r.error);
      }
      hasGenotypeField := r.value.1;
      outcome := Handle(r.value.0);
    }

    /** `run(stream)` with the predictor's hooks, then `terminate` when no
        line raised. `terminate_early` is set but `run` never reads it. */
    method Run(lines: seq<string>) returns (outcome: Outcome)
      requires Valid()
      modifies this
      ensures Valid()
      ensures outcome.Pass? ==> Scan(lines, old(hasGenotypeField)).failure.None?
      ensures outcome.Pass? ==> hasGenotypeField == Scan(lines, old(hasGenotypeField)).genotype
      ensures outcome.Pass? ==> structures.Some?
    {
      ghost var start := hasGenotypeField;
      var i := 0;
      while i < |lines|
        invariant 0 <= i <= |lines|
        invariant Valid()
        invariant Scan(lines[..i], start).failure.None?
        invariant hasGenotypeField == Scan(lines[..i], start).genotype
      {
        ScanSnoc(lines, start, i);
        var o := Step(lines[i]);
        if o.Fail? {
          return o;
        }
        i := i + 1;
      }
      assert lines[..i] == lines;
      outcome := Terminate();
    }
  }
}
