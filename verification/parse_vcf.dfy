/** The older whole-file VCF reader of parse_vcf.py: meta lines are skipped,
    a header line names the meta columns and the individuals, and every data
    row adds its meta columns to one list and each individual's raw field to
    that individual's list. The reader works on the lines of the file. */
module ParseVcf {
  import opened Wrappers
  import opened Text
  import opened Itertools
  import opened Handlers

  /** What a header line binds: `first_individual`, `meta_keys` and `identifiers`. */
  datatype Header = Header(firstIndividual: nat, metaKeys: seq<string>, identifiers: seq<string>)

  /** The local variables of the loop. `header` is `None` while no header
      line has been read, when the other two are still unbound. */
  datatype ParseState = ParseState(header: Option<Header>, metaValues: seq<seq<string>>, data: map<string, seq<string>>)

  /** The dictionary `parse` returns. */
  datatype VcfTable = VcfTable(metaKeys: seq<string>, metaValues: seq<seq<string>>, data: map<string, seq<string>>)

  const Unbound := ParseState(None, [], map[])

  /** `first_individual` for the columns of a header: 9 when one of them is
      `FORMAT`, 8 otherwise. */
  function FirstIndividual(fields: seq<string>): (n: nat)
    ensures n == 9 <==> "FORMAT" in fields
    ensures n == 8 <==> "FORMAT" !in fields
  {
    if "FORMAT" in fields then 9 else 8
  }

  /** The values `zip` hands to one identifier, in order. */
  function ValuesFor(pairs: seq<(string, string)>, x: string): (r: seq<string>)
    ensures |r| <= |pairs|
  {
    if |pairs| == 0 then []
    else
      var last := pairs[|pairs| - 1];
      ValuesFor(pairs[..|pairs| - 1], x) + (if last.0 == x then [last.1] else [])
  }

  /** Under distinct identifiers, the value at position `j` of a zip is the
      only one its identifier receives. */
  lemma {:induction false} ValuesForDistinct(ids: seq<string>, values: seq<string>, j: nat)
    requires Distinct(ids) && j < |ids|
    ensures ValuesFor(Zip(ids, values), ids[j]) == if j < |values| then [values[j]] else []
    decreases |ids|
  {
    var pairs := Zip(ids, values);
    if |pairs| > 0 {
      var init := ids[..|ids| - 1];
      if |ids| <= |values| {
        assert pairs[..|pairs| - 1] == Zip(init, values);
        if j < |ids| - 1 {
          ValuesForDistinct(init, values, j);
        } else {
          ValuesForAbsent(Zip(init, values), ids[j]);
        }
      } else {
        assert pairs == Zip(init, values);
        if j < |ids| - 1 {
          ValuesForDistinct(init, values, j);
        } else {
          ValuesForAbsent(pairs, ids[j]);
        }
      }
    }
  }

  /** An identifier that no pair names receives nothing. */
  lemma {:induction false} ValuesForAbsent(pairs: seq<(string, string)>, x: string)
    requires forall k :: 0 <= k < |pairs| ==> pairs[k].0 != x
    ensures ValuesFor(pairs, x) == []
  {
    if |pairs| > 0 {
      ValuesForAbsent(pairs[..|pairs| - 1], x);
    }
  }

  /** `for identifier, value in pairs: data[identifier].append(value)`, when
      every identifier is a key of `data`. */
  function AppendColumns(data: map<string, seq<string>>, pairs: seq<(string, string)>): (r: map<string, seq<string>>)
    requires forall k :: 0 <= k < |pairs| ==> pairs[k].0 in data
    ensures forall x :: x in r <==> x in data
  {
    if |pairs| == 0 then data
    else
      var last := pairs[|pairs| - 1];
      var d := AppendColumns(data, pairs[..|pairs| - 1]);
      d[last.0 := d[last.0] + [last.1]]
  }

  /** Each list receives exactly the values paired with its identifier, in
      order, after what it held. */
  lemma {:induction false} AppendColumnsValues(data: map<string, seq<string>>, pairs: seq<(string, string)>, x: string)
    requires forall k :: 0 <= k < |pairs| ==> pairs[k].0 in data
    requires x in data
    ensures AppendColumns(data, pairs)[x] == data[x] + ValuesFor(pairs, x)
  {
    if |pairs| > 0 {
      AppendColumnsValues(data, pairs[..|pairs| - 1], x);
    }
  }

  lemma AppendColumnsSnoc(data: map<string, seq<string>>, pairs: seq<(string, string)>, j: nat)
    requires forall k :: 0 <= k < |pairs| ==> pairs[k].0 in data
    requires j < |pairs|
    ensures AppendColumns(data, pairs[..j + 1]) ==
            AppendColumns(data, pairs[..j])[pairs[j].0 := AppendColumns(data, pairs[..j])[pairs[j].0] + [pairs[j].1]]
  {
    assert pairs[..j + 1][..j] == pairs[..j];
  }

  /** What one line does to the loop's variables: a meta line nothing, a
      header rebinds everything, and a data row before any header reads
      unbound names. */
  function Step(st: ParseState, line: string): (r: Result<ParseState>)
    requires st.header.Some? ==> forall x :: x in st.header.value.identifiers ==> x in st.data
    ensures StartsWith(line, "##") ==> r == Ok(st)
    ensures !StartsWith(line, "#") ==> (r.Err? <==> st.header.None?)
    ensures r.Err? ==> r.error == UnboundLocal
  {
    if StartsWith(line, "##") then Ok(st)
    else
      var fields := Columns(line);
      if StartsWith(line, "#") then
        var first := FirstIndividual(fields);
        var identifiers := Drop(fields, first);
        Ok(ParseState(Some(Header(first, Take(fields, first), identifiers)), [], EmptyLists(identifiers)))
      else if st.header.None? then Err(UnboundLocal)
      else
        var h := st.header.value;
        var pairs := Zip(h.identifiers, Drop(fields, h.firstIndividual));
        Ok(ParseState(st.header, st.metaValues + [Take(fields, h.firstIndividual)], AppendColumns(st.data, pairs)))
  }

  /** The loop variables are well formed: every identifier of the header has
      a list. */
  ghost predicate Bound(st: ParseState) {
    st.header.Some? ==> forall x :: x in st.header.value.identifiers <==> x in st.data
  }

  /** A header line splits its columns at `first_individual`, losing none,
      and starts empty lists. */
  lemma StepHeader(st: ParseState, line: string)
    requires Bound(st)
    requires !StartsWith(line, "##") && StartsWith(line, "#")
    ensures var r := Step(st, line);
            r.Ok? && r.value.header.Some? &&
            var h := r.value.header.value;
            h.firstIndividual == FirstIndividual(Columns(line)) &&
            h.metaKeys + h.identifiers == Columns(line) &&
            |h.metaKeys| == (if |Columns(line)| < h.firstIndividual then |Columns(line)| else h.firstIndividual) &&
            r.value.metaValues == [] &&
            (forall x :: x in r.value.data <==> x in h.identifiers) &&
            forall x :: x in r.value.data ==> r.value.data[x] == []
  {
    var fields := Columns(line);
    var first := FirstIndividual(fields);
    assert Take(fields, first) + Drop(fields, first) == fields;
  }

  /** A data row after a header appends exactly its first `first_individual`
      columns to `meta_values` and keeps the header and the identifiers. */
  lemma StepData(st: ParseState, line: string)
    requires Bound(st) && st.header.Some?
    requires !StartsWith(line, "#")
    ensures var r := Step(st, line);
            var h := st.header.value;
            r.Ok? && r.value.header == st.header &&
            r.value.metaValues == st.metaValues + [Take(Columns(line), h.firstIndividual)] &&
            r.value.data == AppendColumns(st.data, Zip(h.identifiers, Drop(Columns(line), h.firstIndividual))) &&
            forall x :: x in r.value.data <==> x in st.data
  {
    var h := st.header.value;
    var pairs := Zip(h.identifiers, Drop(Columns(line), h.firstIndividual));
    assert forall k :: 0 <= k < |pairs| ==> pairs[k].0 in st.data;
  }

  /** Under distinct identifiers, the identifier of column
      `first_individual + j` receives that column of a data row when the row
      has it, and nothing otherwise. */
  lemma StepDataColumn(st: ParseState, line: string, j: nat)
    requires Bound(st) && st.header.Some?
    requires !StartsWith(line, "#")
    requires Distinct(st.header.value.identifiers) && j < |st.header.value.identifiers|
    ensures var r := Step(st, line);
            var h := st.header.value;
            var x := h.identifiers[j];
            var n := h.firstIndividual + j;
            r.Ok? && x in r.value.data &&
            r.value.data[x] == st.data[x] + if n < |Columns(line)| then [Columns(line)[n]] else []
  {
    StepData(st, line);
    var h := st.header.value;
    var fields := Columns(line);
    var rest := Drop(fields, h.firstIndividual);
    var pairs := Zip(h.identifiers, rest);
    var x := h.identifiers[j];
    ValuesForDistinct(h.identifiers, rest, j);
    forall k | 0 <= k < |pairs| ensures pairs[k].0 in st.data {
      assert pairs[k].0 == h.identifiers[k];
    }
    AppendColumnsValues(st.data, pairs, x);
    DropAt(fields, h.firstIndividual, j);
  }

  /** Position `j` of `s[n:]` is position `n + j` of `s`. */
  lemma DropAt(s: seq<string>, n: nat, j: nat)
    ensures j < |Drop(s, n)| <==> n + j < |s|
    ensures n + j < |s| ==> Drop(s, n)[j] == s[n + j]
  {
    if n <= |s| {
      assert Drop(s, n) == s[n..];
    }
  }

  /** The variables after the lines, or the first unbound read. */
  function Fold(lines: seq<string>): (r: Result<ParseState>)
    ensures r.Ok? ==> Bound(r.value)
  {
    if |lines| == 0 then Ok(Unbound)
    else
      var prev := Fold(lines[..|lines| - 1]);
      if prev.Err? then prev
      else
        var r := Step(prev.value, lines[|lines| - 1]);
        assert r.Ok? ==> Bound(r.value) by {
          if r.Ok? && !StartsWith(lines[|lines| - 1], "##") && StartsWith(lines[|lines| - 1], "#") {
            StepHeader(prev.value, lines[|lines| - 1]);
          } else if r.Ok? && !StartsWith(lines[|lines| - 1], "#") {
            StepData(prev.value, lines[|lines| - 1]);
          }
        }
        r
  }

  /** What `parse` returns for `lines`; reading `meta_keys` after a file
      without a header line fails. */
  function Parsed(lines: seq<string>): Result<VcfTable>
  {
    match Fold(lines)
    case Err(e) => Err(e)
    case Ok(st) =>
      if st.header.None? then Err(UnboundLocal)
      else Ok(VcfTable(st.header.value.metaKeys, st.metaValues, st.data))
  }

  /** Parsing fails, with an unbound name, exactly when a data row comes
      before every header line or there is no header line at all. */
  lemma ParsedFails(lines: seq<string>)
    ensures Parsed(lines).Err? <==>
            (exists d :: 0 <= d < |lines| && IsData(lines[d]) && forall h :: 0 <= h < d ==> !IsHeader(lines[h])) ||
            (forall h :: 0 <= h < |lines| ==> !IsHeader(lines[h]))
    ensures Parsed(lines).Err? ==> Parsed(lines).error == UnboundLocal
  {
    FoldFails(lines);
  }

  predicate IsHeader(line: string) {
    !StartsWith(line, "##") && StartsWith(line, "#")
  }

  predicate IsData(line: string) {
    !StartsWith(line, "#")
  }

  /** The fold fails exactly when a data row comes before every header; it
      has a header exactly when some line is one. */
  lemma {:induction false} FoldFails(lines: seq<string>)
    ensures Fold(lines).Err? <==> exists d :: 0 <= d < |lines| && IsData(lines[d]) && forall h :: 0 <= h < d ==> !IsHeader(lines[h])
    ensures Fold(lines).Err? ==> Fold(lines).error == UnboundLocal
    ensures Fold(lines).Ok? ==> (Fold(lines).value.header.Some? <==> exists h :: 0 <= h < |lines| && IsHeader(lines[h]))
  {
    if |lines| > 0 {
      var init := lines[..|lines| - 1];
      var last := lines[|lines| - 1];
      FoldFails(init);
      assert forall k :: 0 <= k < |init| ==> init[k] == lines[k];
      if Fold(init).Ok? {
        var st := Fold(init).value;
        if IsHeader(last) {
          StepHeader(st, last);
        }
      }
    }
  }

  /** The loop of `parse`: the tab-split columns of each line decide what it
      binds or appends. */
  method Parse(lines: seq<string>) returns (r: Result<VcfTable>)
    ensures r == Parsed(lines)
  {
    var bound := false;
    var firstIndividual: nat := 0;
    var metaKeys: seq<string> := [];
    var identifiers: seq<string> := [];
    var metaValues: seq<seq<string>> := [];
    var data: map<string, seq<string>> := map[];
    var i := 0;
    while i < |lines|
      invariant 0 <= i <= |lines|
      invariant Fold(lines[..i]) == Ok(ParseState(if bound then Some(Header(firstIndividual, metaKeys, identifiers)) else None,
                                                  metaValues, data))
    {
      ghost var st := Fold(lines[..i]).value;
      FoldSnoc(lines, i);
      var line := lines[i];
      if StartsWith(line, "##") {
        i := i + 1;
        continue;
      }
      var fields := Columns(line);
      if StartsWith(line, "#") {
        firstIndividual := FirstIndividual(fields);
        metaKeys := Take(fields, firstIndividual);
        identifiers := Drop(fields, firstIndividual);
        metaValues := [];
        data := EmptyLists(identifiers);
        bound := true;
      } else {
        if !bound {
          FoldStops(lines, i + 1);
          return Err(UnboundLocal);
        }
        metaValues := metaValues + [Take(fields, firstIndividual)];
        data := AppendRow(data, identifiers, Drop(fields, firstIndividual));
      }
      i := i + 1;
    }
    assert lines[..i] == lines;
    if !bound {
      return Err(UnboundLocal);
    }
    return Ok(VcfTable(metaKeys, metaValues, data));
  }

  /** One more line: its step on the variables so far. */
  lemma FoldSnoc(lines: seq<string>, i: nat)
    requires i < |lines| && Fold(lines[..i]).Ok?
    ensures Fold(lines[..i + 1]) == Step(Fold(lines[..i]).value, lines[i])
  {
    assert lines[..i + 1][..i] == lines[..i];
  }

  /** `for identifier, value in zip(identifiers, values): data[identifier].append(value)`. */
  method AppendRow(data: map<string, seq<string>>, identifiers: seq<string>, values: seq<string>)
    returns (result: map<string, seq<string>>)
    requires forall x :: x in identifiers ==> x in data
    ensures result == AppendColumns(data, Zip(identifiers, values))
  {
    var pairs := Zip(identifiers, values);
    result := data;
    for j := 0 to |pairs|
      invariant result == AppendColumns(data, pairs[..j])
    {
      AppendColumnsSnoc(data, pairs, j);
      var (identifier, value) := pairs[j];
      result := result[identifier := result[identifier] + [value]];
    }
    assert pairs[..|pairs|] == pairs;
  }

  /** Once a line failed, the rest of the file is never read. */
  lemma {:induction false} FoldStops(lines: seq<string>, i: nat)
    requires i <= |lines| && Fold(lines[..i]).Err?
    ensures Fold(lines) == Fold(lines[..i])
    decreases |lines| - i
  {
    if i < |lines| {
      assert lines[..i + 1][..i] == lines[..i];
      FoldStops(lines, i + 1);
    } else {
      assert lines[..i] == lines;
    }
  }

  /** Under distinct identifiers no list is longer than `meta_values`: each
      data row adds at most one value per identifier. */
  lemma {:induction false} ListsBounded(lines: seq<string>, x: string)
    requires Fold(lines).Ok? && Fold(lines).value.header.Some?
    requires Distinct(Fold(lines).value.header.value.identifiers)
    requires x in Fold(lines).value.data
    ensures |Fold(lines).value.data[x]| <= |Fold(lines).value.metaValues|
  {
    var init := lines[..|lines| - 1];
    var last := lines[|lines| - 1];
    var st := Fold(lines).value;
    var prev := Fold(init);
    assert prev.Ok?;
    if IsHeader(last) {
      StepHeader(prev.value, last);
    } else if IsData(last) {
      var h := prev.value.header.value;
      var j :| 0 <= j < |h.identifiers| && h.identifiers[j] == x;
      StepData(prev.value, last);
      StepDataColumn(prev.value, last, j);
      ListsBounded(init, x);
    } else {
      ListsBounded(init, x);
    }
  }
}
