/** The VCF line dispatcher of vcf/handler.py: `run` sends every line of the
    stream to one hook (`process_meta`, `process_individuals` or
    `process_data`) between a `prepare` and a `terminate`, splitting data rows
    at the eighth column and, when the header names a FORMAT column, at the ninth. */
module Handlers {
  import opened Wrappers
  import opened Text

  /** The number of fixed columns (CHROM, POS, ID, REF, ALT, QUAL, FILTER, INFO). */
  const FIXED_FIELDS_LENGTH: nat := 8

  /** One hook call, with its arguments. */
  datatype Event =
    | Prepare
    | Meta(line: string)
    | Individuals(names: seq<string>)
    | Data(fixed: seq<string>, format: string, data: seq<string>)
    | Terminate

  /** The three kinds of line, told apart by their first characters alone. */
  datatype Kind = MetaLine | HeaderLine | DataLine

  /** A line with its trailing newlines removed. */
  function Chomp(line: string): string {
    RStrip(line, '\n')
  }

  /** The tab-separated columns of a line. */
  function Columns(line: string): seq<string> {
    Split(Chomp(line), '\t')
  }

  function LineKind(line: string): Kind {
    if StartsWith(Chomp(line), "##") then MetaLine
    else if StartsWith(Chomp(line), "#") then HeaderLine
    else DataLine
  }

  function EventKind(e: Event): Kind
    requires e.Meta? || e.Individuals? || e.Data?
  {
    match e
    case Meta(_) => MetaLine
    case Individuals(_) => HeaderLine
    case Data(_, _, _) => DataLine
  }

  /** What `run` does with one line given the current `has_genotype_field`
      (`None` until a header is read): the hook it calls and the flag
      afterwards, or the index error of a short row under a FORMAT header. */
  function Dispatch(line: string, genotype: Option<bool>): (r: Result<(Event, Option<bool>)>)
    // only a data row under a FORMAT header with no ninth column fails
    ensures r.Err? <==> LineKind(line) == DataLine && genotype == Some(true) && |Columns(line)| <= FIXED_FIELDS_LENGTH
    ensures r.Err? ==> r.error == IndexError
    ensures r.Ok? ==> (r.value.0.Meta? || r.value.0.Individuals? || r.value.0.Data?)
    ensures r.Ok? ==> EventKind(r.value.0) == LineKind(line)
    // a header decides the flag; any other line keeps it
    ensures r.Ok? ==> r.value.1 == if r.value.0.Individuals? then Some("FORMAT" in Columns(line)) else genotype
  {
    var s := Chomp(line);
    if StartsWith(s, "##") then Ok((Meta(s), genotype))
    else
      var fields := Split(s, '\t');
      if StartsWith(s, "#") then
        var hasFormat := "FORMAT" in fields;
        var names := if hasFormat then Drop(fields, FIXED_FIELDS_LENGTH + 1) else Drop(fields, FIXED_FIELDS_LENGTH);
        Ok((Individuals(names), Some(hasFormat)))
      else
        var fixed := Take(fields, FIXED_FIELDS_LENGTH);
        if genotype == Some(true) then
          if |fields| <= FIXED_FIELDS_LENGTH then Err(IndexError)
          else
            Ok((Data(fixed, fields[FIXED_FIELDS_LENGTH], fields[FIXED_FIELDS_LENGTH + 1..]), genotype))
        else
          Ok((Data(fixed, "", Drop(fields, FIXED_FIELDS_LENGTH)), genotype))
  }

  /** What each hook receives: a meta line without its newline; for a header,
      the columns after FORMAT, or after INFO; a data row cut into fixed
      columns, format and data, losing nothing. */
  lemma DispatchParts(line: string, genotype: Option<bool>)
    requires Dispatch(line, genotype).Ok?
    ensures var e := Dispatch(line, genotype).value.0;
            && (e.Meta? ==> e.line == Chomp(line))
            && (e.Individuals? ==>
                  && |Columns(line)| - |e.names| <= (if "FORMAT" in Columns(line) then 9 else 8)
                  && Columns(line) == Take(Columns(line), if "FORMAT" in Columns(line) then 9 else 8) + e.names)
            && (e.Data? ==>
                  && |e.fixed| == (if |Columns(line)| < 8 then |Columns(line)| else 8)
                  && (genotype == Some(true) ==> Columns(line) == e.fixed + [e.format] + e.data)
                  && (genotype != Some(true) ==> e.format == "" && Columns(line) == e.fixed + e.data))
  {
    var fields := Columns(line);
    if LineKind(line) == DataLine && genotype == Some(true) {
      assert fields == Take(fields, FIXED_FIELDS_LENGTH) + [fields[FIXED_FIELDS_LENGTH]] + fields[FIXED_FIELDS_LENGTH + 1..];
    }
  }

  /** A data row under a FORMAT header is rebuilt from the parts handed to
      `process_data`: the line minus its newline. */
  lemma DataRowRebuilt(line: string)
    requires Dispatch(line, Some(true)).Ok? && Dispatch(line, Some(true)).value.0.Data?
    ensures var e := Dispatch(line, Some(true)).value.0;
            Join(e.fixed + [e.format] + e.data, '\t') == Chomp(line)
  {
    DispatchParts(line, Some(true));
    JoinSplit(Chomp(line), '\t');
  }

  /** The hooks called for a prefix of the stream, the flag after it, and the
      error that stopped it, if any. */
  datatype Trace = Trace(events: seq<Event>, genotype: Option<bool>, failure: Option<Error>)

  /** The lines handed to `run`, one after the other, from flag `genotype`. */
  function Scan(lines: seq<string>, genotype: Option<bool>): (t: Trace)
    ensures |t.events| <= |lines|
    ensures t.failure.None? ==> |t.events| == |lines|
  {
    if |lines| == 0 then Trace([], genotype, None)
    else
      var t := Scan(lines[..|lines| - 1], genotype);
      if t.failure.Some? then t
      else
        match Dispatch(lines[|lines| - 1], t.genotype)
        case Ok((e, g)) => Trace(t.events + [e], g, None)
        case Err(err) => Trace(t.events, t.genotype, Some(err))
  }

  /** A failure stops the scan at the failing line: the first data row that
      has no ninth column although the header named FORMAT. */
  lemma {:induction false} ScanFailure(lines: seq<string>, genotype: Option<bool>)
    ensures var t := Scan(lines, genotype);
            t.failure.Some? ==>
              && t.failure == Some(IndexError)
              && |t.events| < |lines|
              && LineKind(lines[|t.events|]) == DataLine
              && |Columns(lines[|t.events|])| <= FIXED_FIELDS_LENGTH
  {
    if |lines| > 0 {
      var init := lines[..|lines| - 1];
      ScanFailure(init, genotype);
      var t := Scan(init, genotype);
      if t.failure.Some? {
        assert lines[|t.events|] == init[|t.events|];
      }
    }
  }

  /** Every line reaches exactly one hook, the one its kind selects, in stream
      order. */
  lemma {:induction false} ScanInOrder(lines: seq<string>, genotype: Option<bool>)
    ensures var t := Scan(lines, genotype);
            forall k :: 0 <= k < |t.events| ==>
              (t.events[k].Meta? || t.events[k].Individuals? || t.events[k].Data?) &&
              EventKind(t.events[k]) == LineKind(lines[k])
  {
    if |lines| > 0 {
      var init := lines[..|lines| - 1];
      ScanInOrder(init, genotype);
      var t := Scan(init, genotype);
      if t.failure.None? {
        var r := Dispatch(lines[|lines| - 1], t.genotype);
        if r.Ok? {
          var events := t.events + [r.value.0];
          assert Scan(lines, genotype).events == events;
          forall k | 0 <= k < |events|
            ensures (events[k].Meta? || events[k].Individuals? || events[k].Data?) &&
                    EventKind(events[k]) == LineKind(lines[k])
          {
            if k < |t.events| {
              assert lines[k] == init[k];
            }
          }
        }
      }
    }
  }

  /** Before any header `has_genotype_field` is `None`, so every data row is
      split as if there were no FORMAT column and nothing fails. */
  lemma {:induction false} NoHeaderNoFormat(lines: seq<string>)
    requires forall k :: 0 <= k < |lines| ==> LineKind(lines[k]) != HeaderLine
    ensures var t := Scan(lines, None);
            && t.failure.None? && t.genotype.None?
            && forall k :: 0 <= k < |t.events| ==> t.events[k].Data? ==> t.events[k].format == ""
  {
    if |lines| > 0 {
      var init := lines[..|lines| - 1];
      NoHeaderNoFormat(init);
      var r := Dispatch(lines[|lines| - 1], None);
      if r.Ok? { DispatchParts(lines[|lines| - 1], None); }
    }
  }

  /** The flag after a complete scan is the FORMAT test of the last header line. */
  lemma {:induction false} LastHeaderDecides(lines: seq<string>, genotype: Option<bool>, i: nat)
    requires i < |lines| && LineKind(lines[i]) == HeaderLine
    requires forall j :: i < j < |lines| ==> LineKind(lines[j]) != HeaderLine
    requires Scan(lines, genotype).failure.None?
    ensures Scan(lines, genotype).genotype == Some("FORMAT" in Columns(lines[i]))
  {
    var init := lines[..|lines| - 1];
    if i < |lines| - 1 {
      LastHeaderDecides(init, genotype, i);
    }
  }

  /** The dispatcher proper. The hooks are recorded in `events` as they are
      called; `hasGenotypeField` is the field that survives between lines. */
  class Handler {
    var hasGenotypeField: Option<bool>
    var events: seq<Event>

    constructor ()
      ensures hasGenotypeField == None && events == []
    {
      hasGenotypeField := None;
      events := [];
    }

    /** `run(stream)`: `prepare` once, one hook per line in order, and
        `terminate` once after the last line, unless a line raised. */
    method Run(lines: seq<string>) returns (outcome: Outcome)
      modifies this
      ensures var t := Scan(lines, old(hasGenotypeField));
              && hasGenotypeField == t.genotype
              && events == old(events) + [Prepare] + t.events + (if t.failure.None? then [Terminate] else [])
              && outcome == (if t.failure.None? then Pass else Fail(t.failure.value))
    {
      ghost var start := hasGenotypeField;
      events := events + [Prepare];
      ghost var before := events;
      var i := 0;
      while i < |lines|
        invariant 0 <= i <= |lines|
        invariant Scan(lines[..i], start).failure.None?
        invariant hasGenotypeField == Scan(lines[..i], start).genotype
        invariant events == before + Scan(lines[..i], start).events
      {
        assert lines[..i + 1][..i] == lines[..i];
        var r := Dispatch(lines[i], hasGenotypeField);
        if r.Err? {
          assert lines[..i + 1] <= lines;
          ScanStops(lines, start, i + 1);
          return Fail(r.error);
        }
        events := events + [r.value.0];
        hasGenotypeField := r.value.1;
        i := i + 1;
      }
      assert lines[..i] == lines;
      events := events + [Terminate];
      return Pass;
    }
  }

  /** The scan of one more line. */
  lemma ScanSnoc(lines: seq<string>, genotype: Option<bool>, i: nat)
    requires i < |lines|
    requires Scan(lines[..i], genotype).failure.None?
    ensures var t := Scan(lines[..i], genotype);
            var r := Dispatch(lines[i], t.genotype);
            Scan(lines[..i + 1], genotype) ==
              if r.Ok? then Trace(t.events + [r.value.0], r.value.1, None)
              else Trace(t.events, t.genotype, Some(r.error))
  {
    assert lines[..i + 1][..i] == lines[..i];
  }

  /** Once the scan of a prefix has failed, the rest of the stream changes nothing. */
  lemma {:induction false} ScanStops(lines: seq<string>, genotype: Option<bool>, n: nat)
    requires n <= |lines|
    requires Scan(lines[..n], genotype).failure.Some?
    ensures Scan(lines, genotype) == Scan(lines[..n], genotype)
    decreases |lines|
  {
    if n < |lines| {
      var init := lines[..|lines| - 1];
      assert init[..n] == lines[..n];
      ScanStops(init, genotype, n);
    } else {
      assert lines[..n] == lines;
    }
  }
}
