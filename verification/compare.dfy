/** The population-file parser and the comparison-value builders of
    compare.py. The comparer is a function argument: `compare(id1, id2)`
    either yields a value or raises, and the first raise propagates. */
module CompareTool {
  import opened Wrappers
  import opened Text
  import opened Itertools
  import opened Populations

  /*
   * parse_population
   */

  /** One line of a population file: `Ok(None)` when it is blank once
      cleaned, `Ok(Some((identifier, group)))` when it holds exactly two
      fields, and the exception naming the cleaned line and its field count
      otherwise. */
  function ParseLine(line: string): (r: Result<Option<Entry>>)
    ensures r == Ok(None) <==> CleanLine(line) == ""
    ensures r.Err? <==> CleanLine(line) != "" && |SplitWords(CleanLine(line))| != 2
    ensures r.Err? ==> r.error == InvalidLine(CleanLine(line), |SplitWords(CleanLine(line))|)
    ensures r.Ok? && r.value.Some? ==> IsWord(r.value.value.0) && IsWord(r.value.value.1)
  {
    var clean := CleanLine(line);
    if clean == "" then Ok(None)
    else
      var fields := SplitWords(clean);
      if |fields| != 2 then Err(InvalidLine(clean, |fields|))
      else Ok(Some((fields[0], fields[1])))
  }

  /** The present entries, in order. */
  function Present<T>(opts: seq<Option<T>>): (r: seq<T>)
    ensures |r| <= |opts|
  {
    if |opts| == 0 then []
    else
      var last := opts[|opts| - 1];
      Present(opts[..|opts| - 1]) + (if last.Some? then [last.value] else [])
  }

  /** An entry is kept exactly when it is present somewhere. */
  lemma {:induction false} PresentMember<T>(opts: seq<Option<T>>, x: T)
    ensures x in Present(opts) <==> Some(x) in opts
  {
    if |opts| > 0 {
      var init := opts[..|opts| - 1];
      PresentMember(init, x);
      assert opts == init + [opts[|opts| - 1]];
    }
  }

  lemma PresentSnoc<T>(opts: seq<Option<T>>, o: Option<T>)
    ensures Present(opts + [o]) == Present(opts) + (if o.Some? then [o.value] else [])
  {
    assert (opts + [o])[..|opts|] == opts;
  }

  /** The `add_individual` calls `parse_population` makes for `lines`, in
      file order, or the exception of the first invalid line. */
  function PopulationEntries(lines: seq<string>): (r: Result<seq<Entry>>)
    ensures r.Ok? <==> Traverse(lines, ParseLine).Ok?
  {
    match Traverse(lines, ParseLine)
    case Ok(opts) => Ok(Present(opts))
    case Err(e) => Err(e)
  }

  /** Parsing fails exactly when some line keeps a field count other than
      2 after cleaning, and then it names the first such line. */
  lemma PopulationEntriesError(lines: seq<string>)
    ensures PopulationEntries(lines).Err? <==>
            exists k :: 0 <= k < |lines| && CleanLine(lines[k]) != "" && |SplitWords(CleanLine(lines[k]))| != 2
    ensures PopulationEntries(lines).Err? ==>
            exists k :: 0 <= k < |lines| &&
              PopulationEntries(lines).error == InvalidLine(CleanLine(lines[k]), |SplitWords(CleanLine(lines[k]))|) &&
              |SplitWords(CleanLine(lines[k]))| != 2 &&
              forall j :: 0 <= j < k ==> CleanLine(lines[j]) == "" || |SplitWords(CleanLine(lines[j]))| == 2
  {
    if PopulationEntries(lines).Err? {
      TraverseFirstError(lines, ParseLine);
      var k :| 0 <= k < |lines| && ParseLine(lines[k]) == Err(Traverse(lines, ParseLine).error) &&
               forall j :: 0 <= j < k ==> ParseLine(lines[j]).Ok?;
      assert PopulationEntries(lines).error == Traverse(lines, ParseLine).error;
    } else {
      forall k | 0 <= k < |lines|
        ensures CleanLine(lines[k]) == "" || |SplitWords(CleanLine(lines[k]))| == 2
      {
        assert ParseLine(lines[k]).Ok?;
      }
    }
  }

  /** A line yields an entry exactly when, once cleaned, it splits into
      those two fields. */
  lemma ParseLineFields(line: string, e: Entry)
    ensures ParseLine(line) == Ok(Some(e)) <==> SplitWords(CleanLine(line)) == [e.0, e.1]
  {
    var clean := CleanLine(line);
    if clean == "" {
      assert SplitWords(clean) == [];
    }
  }

  /** On success, `(identifier, group)` is added exactly when some line
      yields it. */
  lemma PopulationEntriesMember(lines: seq<string>, e: Entry)
    requires PopulationEntries(lines).Ok?
    ensures e in PopulationEntries(lines).value <==>
            exists k :: 0 <= k < |lines| && ParseLine(lines[k]) == Ok(Some(e))
  {
    var opts := Traverse(lines, ParseLine).value;
    PresentMember(opts, e);
    if Some(e) in opts {
      var k :| 0 <= k < |opts| && opts[k] == Some(e);
      assert ParseLine(lines[k]) == Ok(Some(e));
    }
  }

  /** The registry built from a file: an individual sits in a group's list
      exactly when some line names it with that group. */
  lemma ParsedGroupMembers(lines: seq<string>, x: string, g: string)
    requires PopulationEntries(lines).Ok?
    ensures x in MembersOf(PopulationEntries(lines).value, g) <==>
            exists k :: 0 <= k < |lines| && ParseLine(lines[k]) == Ok(Some((x, g)))
  {
    MembersExactly(PopulationEntries(lines).value, g, x);
    PopulationEntriesMember(lines, (x, g));
  }

  /** One more line of the file, as the loop of `parse_population` takes it. */
  lemma PopulationEntriesSnoc(lines: seq<string>, i: nat)
    requires i < |lines| && PopulationEntries(lines[..i]).Ok?
    ensures PopulationEntries(lines[..i + 1]) ==
            match ParseLine(lines[i])
            case Err(e) => Err(e)
            case Ok(o) => Ok(PopulationEntries(lines[..i]).value + (if o.Some? then [o.value] else []))
  {
    TraverseSnoc(lines, ParseLine, i);
    var opts := Traverse(lines[..i], ParseLine).value;
    if ParseLine(lines[i]).Ok? {
      PresentSnoc(opts, ParseLine(lines[i]).value);
    }
  }

  /** Once a line raised, the rest of the file is never read. */
  lemma PopulationEntriesStops(lines: seq<string>, i: nat)
    requires i <= |lines| && PopulationEntries(lines[..i]).Err?
    ensures PopulationEntries(lines) == PopulationEntries(lines[..i])
  {
    TraverseStops(lines, ParseLine, i);
  }

  /** `parse_population(file)`, over the lines of the file. */
  method ParsePopulation(lines: seq<string>) returns (r: Result<Population>)
    ensures r.Err? <==> PopulationEntries(lines).Err?
    ensures r.Err? ==> r.error == PopulationEntries(lines).error
    ensures r.Ok? ==> fresh(r.value) && r.value.Valid() && r.value.added == PopulationEntries(lines).value
  {
    var result := new Population();
    var i := 0;
    while i < |lines|
      invariant 0 <= i <= |lines|
      invariant fresh(result) && result.Valid()
      invariant PopulationEntries(lines[..i]).Ok? && result.added == PopulationEntries(lines[..i]).value
    {
      PopulationEntriesSnoc(lines, i);
      var line := CleanLine(lines[i]);
      if line != "" {
        var fields := SplitWords(line);
        if |fields| != 2 {
          PopulationEntriesStops(lines, i + 1);
          return Err(InvalidLine(line, |fields|));
        }
        result.AddIndividual(fields[0], fields[1]);
      }
      i := i + 1;
    }
    assert lines[..i] == lines;
    return Ok(result);
  }

  /*
   * The comparison-value lists
   */

  /** `compare(id1, id2)` applied to a pair. */
  function Compared(compare: (string, string) -> Result<int>): (f: ((string, string)) -> Result<int>)
    ensures forall a, b :: f((a, b)) == compare(a, b)
  {
    (p: (string, string)) => compare(p.0, p.1)
  }

  /** `group_to_individuals[g]` on the defaultdict: the list, or an empty one. */
  function ListOf(lists: map<string, seq<string>>, g: string): (ids: seq<string>)
    ensures g in lists ==> ids == lists[g]
    ensures g !in lists ==> ids == []
  {
    if g in lists then lists[g] else []
  }

  /** The pairs whose two parts differ, in order. */
  function OffDiagonal(ps: seq<(string, string)>): (r: seq<(string, string)>)
    ensures |r| <= |ps|
  {
    if |ps| == 0 then []
    else
      var last := ps[|ps| - 1];
      OffDiagonal(ps[..|ps| - 1]) + (if last.0 != last.1 then [last] else [])
  }

  lemma {:induction false} OffDiagonalMember(ps: seq<(string, string)>, p: (string, string))
    ensures p in OffDiagonal(ps) <==> p in ps && p.0 != p.1
  {
    if |ps| > 0 {
      var init := ps[..|ps| - 1];
      OffDiagonalMember(init, p);
      assert ps == init + [ps[|ps| - 1]];
    }
  }

  lemma {:induction false} OffDiagonalAppend(a: seq<(string, string)>, b: seq<(string, string)>)
    ensures OffDiagonal(a + b) == OffDiagonal(a) + OffDiagonal(b)
    decreases |b|
  {
    if |b| > 0 {
      assert (a + b)[..|a + b| - 1] == a + b[..|b| - 1];
      OffDiagonalAppend(a, b[..|b| - 1]);
    } else {
      assert a + b == a;
    }
  }

  /** Pairing `x` with a list of distinct identifiers loses one pair when `x`
      is among them and none otherwise. */
  lemma {:induction false} OffDiagonalPairs(x: string, t: seq<string>)
    requires Distinct(t)
    ensures |OffDiagonal(Pairs(x, t))| == if x in t then |t| - 1 else |t|
  {
    if |t| > 0 {
      var init := t[..|t| - 1];
      assert Pairs(x, t)[..|t| - 1] == Pairs(x, init);
      OffDiagonalPairs(x, init);
      assert t == init + [t[|t| - 1]];
    }
  }

  /** Pairing each identifier of `s` with a list `t` of distinct identifiers
      that contains them all leaves `|s| * (|t| - 1)` pairs of different
      identifiers. */
  lemma {:induction false} OffDiagonalProduct(s: seq<string>, t: seq<string>)
    requires Distinct(t) && forall k :: 0 <= k < |s| ==> s[k] in t
    ensures |OffDiagonal(Product(s, t))| == |s| * (|t| - 1)
  {
    if |s| > 0 {
      OffDiagonalAppend(Pairs(s[0], t), Product(s[1..], t));
      OffDiagonalPairs(s[0], t);
      OffDiagonalProduct(s[1..], t);
      assert |OffDiagonal(Product(s, t))| == (|t| - 1) + (|s| - 1) * (|t| - 1);
    }
  }

  /** The pairs of `get_distances_by_group` for two groups: every pair of the
      product, except that within one group nobody is paired with itself. */
  function GroupPairs(group1: string, group2: string, ids1: seq<string>, ids2: seq<string>): (r: seq<(string, string)>)
  {
    if group1 == group2 then OffDiagonal(Product(ids1, ids2)) else Product(ids1, ids2)
  }

  /** Which pairs are compared, and how many: `n1 * n2` across two groups,
      `n * (n - 1)` within a group of `n` distinct individuals. */
  lemma GroupPairsMeaning(group1: string, group2: string, ids1: seq<string>, ids2: seq<string>, a: string, b: string)
    ensures (a, b) in GroupPairs(group1, group2, ids1, ids2) <==> a in ids1 && b in ids2 && (group1 != group2 || a != b)
    ensures group1 != group2 ==> |GroupPairs(group1, group2, ids1, ids2)| == |ids1| * |ids2|
    ensures group1 == group2 && ids1 == ids2 && Distinct(ids1) ==>
              |GroupPairs(group1, group2, ids1, ids2)| == |ids1| * (|ids1| - 1)
  {
    ProductMember(ids1, ids2, a, b);
    OffDiagonalMember(Product(ids1, ids2), (a, b));
    ProductLength(ids1, ids2);
    if group1 == group2 && ids1 == ids2 && Distinct(ids1) {
      OffDiagonalProduct(ids1, ids2);
    }
  }

  /** The value list of one key of `get_distances_by_group`. */
  function GroupValues(group1: string, group2: string, lists: map<string, seq<string>>,
                       compare: (string, string) -> Result<int>): Result<seq<int>>
  {
    Traverse(GroupPairs(group1, group2, ListOf(lists, group1), ListOf(lists, group2)), Compared(compare))
  }

  function DistanceEntry(lists: map<string, seq<string>>, compare: (string, string) -> Result<int>):
    ((string, string)) -> Result<((string, string), seq<int>)>
  {
    (p: (string, string)) => Labelled(p, GroupValues(p.0, p.1, lists, compare))
  }

  /** What `get_distances_by_group` returns, as the items of the dictionary
      in insertion order. */
  function DistancesByGroup(groups: seq<string>, lists: map<string, seq<string>>,
                            compare: (string, string) -> Result<int>): Result<seq<((string, string), seq<int>)>>
  {
    Traverse(CombinationsWithReplacement(groups), DistanceEntry(lists, compare))
  }

  /** One value per pair of `GroupPairs`, in order: `compare` of that pair. */
  lemma GroupValuesMeaning(group1: string, group2: string, lists: map<string, seq<string>>,
                           compare: (string, string) -> Result<int>)
    requires GroupValues(group1, group2, lists, compare).Ok?
    ensures var pairs := GroupPairs(group1, group2, ListOf(lists, group1), ListOf(lists, group2));
            var values := GroupValues(group1, group2, lists, compare).value;
            |values| == |pairs| && forall m :: 0 <= m < |pairs| ==> compare(pairs[m].0, pairs[m].1) == Ok(values[m])
  {
    var pairs := GroupPairs(group1, group2, ListOf(lists, group1), ListOf(lists, group2));
    var values := GroupValues(group1, group2, lists, compare).value;
    forall m | 0 <= m < |pairs| ensures compare(pairs[m].0, pairs[m].1) == Ok(values[m]) {
      assert Compared(compare)(pairs[m]) == Ok(values[m]);
    }
  }

  /** One key per `combinations_with_replacement` pair of groups, in that
      order and each once, with the value list of that pair of groups. It
      raises exactly when some value list does. */
  lemma DistancesByGroupMeaning(groups: seq<string>, lists: map<string, seq<string>>,
                                compare: (string, string) -> Result<int>)
    requires Distinct(groups)
    ensures var r := DistancesByGroup(groups, lists, compare);
            var pairs := CombinationsWithReplacement(groups);
            r.Ok? ==> |r.value| == |pairs| &&
                      (forall i, j :: 0 <= i < j < |r.value| ==> r.value[i].0 != r.value[j].0) &&
                      forall k :: 0 <= k < |pairs| ==>
                        r.value[k].0 == pairs[k] && GroupValues(pairs[k].0, pairs[k].1, lists, compare) == Ok(r.value[k].1)
    ensures var r := DistancesByGroup(groups, lists, compare);
            var pairs := CombinationsWithReplacement(groups);
            r.Err? <==> exists k :: 0 <= k < |pairs| && GroupValues(pairs[k].0, pairs[k].1, lists, compare).Err?
  {
    var pairs := CombinationsWithReplacement(groups);
    var f := DistanceEntry(lists, compare);
    CombinationsWithReplacementDistinct(groups);
    var r := DistancesByGroup(groups, lists, compare);
    if r.Ok? {
      forall k | 0 <= k < |pairs|
        ensures r.value[k].0 == pairs[k] && GroupValues(pairs[k].0, pairs[k].1, lists, compare) == Ok(r.value[k].1)
      {
        assert f(pairs[k]) == Ok(r.value[k]);
      }
    } else {
      var k :| 0 <= k < |pairs| && !f(pairs[k]).Ok?;
      assert GroupValues(pairs[k].0, pairs[k].1, lists, compare).Err?;
    }
  }

  /** `get_distances_by_group(population, comparer)`. */
  method GetDistancesByGroup(population: Population, compare: (string, string) -> Result<int>)
    returns (r: Result<seq<((string, string), seq<int>)>>)
    requires population.Valid()
    ensures r == DistancesByGroup(population.groupOrder, population.groupToIndividuals, compare)
  {
    var lists := population.groupToIndividuals;
    var pairs := CombinationsWithReplacement(population.Groups());
    ghost var f := DistanceEntry(lists, compare);
    var result := [];
    for i := 0 to |pairs|
      invariant Traverse(pairs[..i], f) == Ok(result)
    {
      TraverseSnoc(pairs, f, i);
      var (group1, group2) := pairs[i];
      var values := GroupValues(group1, group2, lists, compare);
      if values.Err? {
        TraverseStops(pairs, f, i + 1);
        return Err(values.error);
      }
      result := result + [((group1, group2), values.value)];
    }
    assert pairs[..|pairs|] == pairs;
    return Ok(result);
  }

  /*
   * make_model
   */

  /** The value lists `make_model` hands to the model, per group and per
      pair of distinct groups; their statistics are not modelled. */
  datatype ModelValues = ModelValues(within: seq<(string, seq<int>)>, between: seq<((string, string), seq<int>)>)

  function WithinEntry(lists: map<string, seq<string>>, compare: (string, string) -> Result<int>):
    string -> Result<(string, seq<int>)>
  {
    (g: string) => Labelled(g, Traverse(Combinations(ListOf(lists, g)), Compared(compare)))
  }

  function BetweenEntry(lists: map<string, seq<string>>, compare: (string, string) -> Result<int>):
    ((string, string)) -> Result<((string, string), seq<int>)>
  {
    (p: (string, string)) => Labelled(p, Traverse(Product(ListOf(lists, p.0), ListOf(lists, p.1)), Compared(compare)))
  }

  /** What `make_model` computes: the within-group lists first, then the
      between-group lists; the first comparison that raises ends it. */
  function ModelOf(groups: seq<string>, lists: map<string, seq<string>>,
                   compare: (string, string) -> Result<int>): Result<ModelValues>
  {
    match Traverse(groups, WithinEntry(lists, compare))
    case Err(e) => Err(e)
    case Ok(within) =>
      match Traverse(Combinations(groups), BetweenEntry(lists, compare))
      case Err(e) => Err(e)
      case Ok(between) => Ok(ModelValues(within, between))
  }

  /** One within-group list per group, in group order, holding `n(n-1)/2`
      values for `n` members; one between-group list per pair of positions
      `i < j` of the groups, holding `n1 * n2` values, and never for a group
      paired with itself. */
  lemma ModelOfMeaning(groups: seq<string>, lists: map<string, seq<string>>,
                       compare: (string, string) -> Result<int>)
    requires Distinct(groups)
    ensures var r := ModelOf(groups, lists, compare);
            r.Ok? ==> |r.value.within| == |groups| &&
                      forall k :: 0 <= k < |groups| ==>
                        r.value.within[k].0 == groups[k] &&
                        2 * |r.value.within[k].1| == |ListOf(lists, groups[k])| * (|ListOf(lists, groups[k])| - 1)
    ensures var r := ModelOf(groups, lists, compare);
            var pairs := Combinations(groups);
            r.Ok? ==> |r.value.between| == |pairs| &&
                      forall k :: 0 <= k < |pairs| ==>
                        r.value.between[k].0 == pairs[k] && pairs[k].0 != pairs[k].1 &&
                        |r.value.between[k].1| == |ListOf(lists, pairs[k].0)| * |ListOf(lists, pairs[k].1)|
  {
    var r := ModelOf(groups, lists, compare);
    if r.Ok? {
      var w := WithinEntry(lists, compare);
      forall k | 0 <= k < |groups|
        ensures r.value.within[k].0 == groups[k]
        ensures 2 * |r.value.within[k].1| == |ListOf(lists, groups[k])| * (|ListOf(lists, groups[k])| - 1)
      {
        assert w(groups[k]) == Ok(r.value.within[k]);
        CombinationsLength(ListOf(lists, groups[k]));
      }
      var pairs := Combinations(groups);
      var b := BetweenEntry(lists, compare);
      forall k | 0 <= k < |pairs|
        ensures r.value.between[k].0 == pairs[k] && pairs[k].0 != pairs[k].1
        ensures |r.value.between[k].1| == |ListOf(lists, pairs[k].0)| * |ListOf(lists, pairs[k].1)|
      {
        assert b(pairs[k]) == Ok(r.value.between[k]);
        ProductLength(ListOf(lists, pairs[k].0), ListOf(lists, pairs[k].1));
        CombinationsMember(groups, pairs[k].0, pairs[k].1);
      }
    }
  }

  /** The value list `make_model` computes within one group. */
  function WithinValues(identifiers: seq<string>, compare: (string, string) -> Result<int>): Result<seq<int>>
  {
    Traverse(Combinations(identifiers), Compared(compare))
  }

  /** The value list `make_model` computes between two groups. */
  function BetweenValues(ids1: seq<string>, ids2: seq<string>, compare: (string, string) -> Result<int>): Result<seq<int>>
  {
    Traverse(Product(ids1, ids2), Compared(compare))
  }

  /** `make_model(population, comparer)`, up to the statistics. */
  method MakeModel(population: Population, compare: (string, string) -> Result<int>) returns (r: Result<ModelValues>)
    requires population.Valid()
    ensures r == ModelOf(population.groupOrder, population.groupToIndividuals, compare)
  {
    var lists := population.groupToIndividuals;
    var groups := population.Groups();
    var items := population.Items();
    ghost var w := WithinEntry(lists, compare);
    var within := [];
    for i := 0 to |items|
      invariant Traverse(groups[..i], w) == Ok(within)
    {
      TraverseSnoc(groups, w, i);
      var (group, identifiers) := items[i];
      assert identifiers == ListOf(lists, group);
      var values := WithinValues(identifiers, compare);
      if values.Err? {
        TraverseStops(groups, w, i + 1);
        return Err(values.error);
      }
      within := within + [(group, values.value)];
    }
    assert groups[..|groups|] == groups;
    var pairs := Combinations(groups);
    ghost var b := BetweenEntry(lists, compare);
    var between := [];
    for i := 0 to |pairs|
      invariant Traverse(pairs[..i], b) == Ok(between)
    {
      TraverseSnoc(pairs, b, i);
      var (group1, group2) := pairs[i];
      var values := BetweenValues(ListOf(lists, group1), ListOf(lists, group2), compare);
      if values.Err? {
        TraverseStops(pairs, b, i + 1);
        return Err(values.error);
      }
      between := between + [((group1, group2), values.value)];
    }
    assert pairs[..|pairs|] == pairs;
    return Ok(ModelValues(within, between));
  }

  /*
   * compare_test_individuals
   */

  function GroupColumn(individual: string, compare: (string, string) -> Result<int>):
    ((string, seq<string>)) -> Result<(string, seq<int>)>
  {
    (item: (string, seq<string>)) => Labelled(item.0, Traverse(Pairs(individual, item.1), Compared(compare)))
  }

  /** The inner dictionary of one test individual, as items. */
  function TestRow(items: seq<(string, seq<string>)>, compare: (string, string) -> Result<int>,
                   individual: string): Result<seq<(string, seq<int>)>>
  {
    Traverse(items, GroupColumn(individual, compare))
  }

  function TestEntry(items: seq<(string, seq<string>)>, compare: (string, string) -> Result<int>):
    string -> Result<(string, seq<(string, seq<int>)>)>
  {
    (x: string) => Labelled(x, TestRow(items, compare, x))
  }

  /** What `compare_test_individuals` computes, before the statistics: per
      test individual, per training group, the values of comparing the
      individual with each member. */
  function TestTable(individuals: seq<string>, items: seq<(string, seq<string>)>,
                     compare: (string, string) -> Result<int>): Result<seq<(string, seq<(string, seq<int>)>)>>
  {
    Traverse(individuals, TestEntry(items, compare))
  }

  /** One entry per test individual and training group, in order; each entry
      lists `compare(individual, member)` for every member of the group, in
      order. */
  lemma TestTableMeaning(individuals: seq<string>, items: seq<(string, seq<string>)>,
                         compare: (string, string) -> Result<int>, i: nat, j: nat)
    requires TestTable(individuals, items, compare).Ok?
    requires i < |individuals| && j < |items|
    ensures var t := TestTable(individuals, items, compare).value;
            |t| == |individuals| && t[i].0 == individuals[i] &&
            |t[i].1| == |items| && t[i].1[j].0 == items[j].0 &&
            |t[i].1[j].1| == |items[j].1| &&
            forall m :: 0 <= m < |items[j].1| ==> compare(individuals[i], items[j].1[m]) == Ok(t[i].1[j].1[m])
  {
    var t := TestTable(individuals, items, compare).value;
    var x := individuals[i];
    assert TestEntry(items, compare)(x) == Ok(t[i]);
    var row := TestRow(items, compare, x).value;
    assert GroupColumn(x, compare)(items[j]) == Ok(row[j]);
    var values := Traverse(Pairs(x, items[j].1), Compared(compare)).value;
    forall m | 0 <= m < |items[j].1|
      ensures compare(x, items[j].1[m]) == Ok(t[i].1[j].1[m])
    {
      assert Compared(compare)(Pairs(x, items[j].1)[m]) == Ok(values[m]);
    }
  }

  /** The comparisons of one test individual, group by group. */
  method CompareWithGroups(individual: string, items: seq<(string, seq<string>)>,
                           compare: (string, string) -> Result<int>) returns (r: Result<seq<(string, seq<int>)>>)
    ensures r == TestRow(items, compare, individual)
  {
    ghost var g := GroupColumn(individual, compare);
    var row := [];
    for j := 0 to |items|
      invariant Traverse(items[..j], g) == Ok(row)
    {
      TraverseSnoc(items, g, j);
      var (group, members) := items[j];
      var values := Traverse(Pairs(individual, members), Compared(compare));
      if values.Err? {
        TraverseStops(items, g, j + 1);
        return Err(values.error);
      }
      row := row + [(group, values.value)];
    }
    assert items[..|items|] == items;
    return Ok(row);
  }

  /** `compare_test_individuals(test, train, comparer)`, up to the statistics. */
  method CompareTestIndividuals(test: Population, train: Population, compare: (string, string) -> Result<int>)
    returns (r: Result<seq<(string, seq<(string, seq<int>)>)>>)
    requires test.Valid() && train.Valid()
    ensures r == TestTable(test.Individuals(), train.Items(), compare)
  {
    var individuals := test.Individuals();
    var items := train.Items();
    ghost var e := TestEntry(items, compare);
    var result := [];
    for i := 0 to |individuals|
      invariant Traverse(individuals[..i], e) == Ok(result)
    {
      TraverseSnoc(individuals, e, i);
      var row := CompareWithGroups(individuals[i], items, compare);
      if row.Err? {
        TraverseStops(individuals, e, i + 1);
        return Err(row.error);
      }
      result := result + [(individuals[i], row.value)];
    }
    assert individuals[..|individuals|] == individuals;
    return Ok(result);
  }
}
