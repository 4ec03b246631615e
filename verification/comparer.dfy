/** The pairwise difference comparer of vcf/comparer.py (`Comparer` with the
    `DefaultComparer` hooks): one counter per unordered pair of configured
    individuals, raised by one for every data row whose two genotype calls
    carry different sets of non-reference alleles. */
module Comparers {
  import opened Wrappers
  import opened Text
  import opened Itertools
  import opened Handlers

  /** The GT part of a sample column: the text before the first `:`. */
  function GenotypeText(field: string): string {
    Split(field, ':')[0]
  }

  /** The GT part holds no `:`; it is the text before the first `:`, or the
      whole field when there is none. */
  lemma GenotypeTextMeaning(field: string)
    ensures ':' !in GenotypeText(field)
    ensures GenotypeText(field) == if ':' in field then field[..Find(field, ':')] else field
  {
    SplitHead(field, ':');
  }

  /** The separator `DefaultComparer.process_variant` splits on: `/` wins over `|`. */
  function AlleleSeparator(gt: string): Option<char> {
    if '/' in gt then Some('/') else if '|' in gt then Some('|') else None
  }

  /** The GT text cut at the separator, before stripping. */
  function Pieces(gt: string): (r: seq<string>)
    ensures |r| >= 1
  {
    match AlleleSeparator(gt)
    case Some(c) => Split(gt, c)
    case None => [gt]
  }

  /** Every piece is made of characters of the GT text, and none holds the separator. */
  lemma PieceChars(gt: string, k: nat)
    requires k < |Pieces(gt)|
    ensures forall ch :: ch in Pieces(gt)[k] ==> ch in gt
    ensures AlleleSeparator(gt).Some? ==> AlleleSeparator(gt).value !in Pieces(gt)[k]
  {
    if AlleleSeparator(gt).Some? {
      SplitPieceChars(gt, AlleleSeparator(gt).value);
    }
  }

  /** `DefaultComparer.process_variant`: the alleles of the GT call, each stripped. */
  function Alleles(field: string): (r: seq<string>)
    ensures |r| >= 1
    ensures |r| == |Pieces(GenotypeText(field))|
  {
    var pieces := Pieces(GenotypeText(field));
    seq(|pieces|, k requires 0 <= k < |pieces| => Strip(pieces[k]))
  }

  /** No allele holds `:` or `/`, nor `|` when the call has no `/`; none
      starts or ends with whitespace. */
  lemma AlleleShape(field: string, k: nat)
    requires k < |Alleles(field)|
    ensures var a := Alleles(field)[k];
            && ':' !in a && '/' !in a && ('/' !in GenotypeText(field) ==> '|' !in a)
            && (|a| == 0 || (!IsSpace(a[0]) && !IsSpace(a[|a| - 1])))
  {
    var gt := GenotypeText(field);
    var piece := Pieces(gt)[k];
    GenotypeTextMeaning(field);
    PieceChars(gt, k);
    StripKeeps(piece, gt);
    assert Alleles(field)[k] == Strip(piece);
  }

  /** Stripping adds no character that the surrounding text lacks. */
  lemma StripKeeps(p: string, gt: string)
    requires forall ch :: ch in p ==> ch in gt
    ensures forall ch :: ch in Strip(p) ==> ch in gt
  {
  }

  /** Stripping a string without whitespace leaves it as it is. */
  lemma StripNoSpace(s: string)
    requires forall ch :: ch in s ==> !IsSpace(ch)
    ensures Strip(s) == s
  {
    if |s| > 0 {
      assert s[0] in s && s[|s| - 1] in s;
    }
  }

  /** For a GT call without whitespace, joining the alleles with the separator
      that was split on gives the GT text back. */
  lemma AllelesRebuild(field: string)
    requires forall ch :: ch in GenotypeText(field) ==> !IsSpace(ch)
    requires AlleleSeparator(GenotypeText(field)).Some?
    ensures Join(Alleles(field), AlleleSeparator(GenotypeText(field)).value) == GenotypeText(field)
  {
    var gt := GenotypeText(field);
    var c := AlleleSeparator(gt).value;
    var pieces := Pieces(gt);
    forall k | 0 <= k < |pieces| ensures Strip(pieces[k]) == pieces[k] {
      PieceChars(gt, k);
      StripNoSpace(pieces[k]);
    }
    assert Alleles(field) == pieces;
    JoinSplit(gt, c);
  }

  /** The alleles other than `0`, as a set. */
  function NonReference(alleles: seq<string>): (r: set<string>)
    ensures forall a :: a in r <==> a in alleles && a != "0"
  {
    set a | a in alleles && a != "0"
  }

  /** `DefaultComparer.update_comparison`: what a row adds to a pair's
      counter given the two processed calls. */
  function Change(variant1: seq<string>, variant2: seq<string>): nat {
    if NonReference(variant1) != NonReference(variant2) then 1 else 0
  }

  /** A counter grows by at most one, exactly when some allele other than `0`
      is carried by one call and not by the other; the order of the two calls
      does not matter. */
  lemma ChangeMeaning(variant1: seq<string>, variant2: seq<string>)
    ensures Change(variant1, variant2) <= 1
    ensures Change(variant1, variant2) == Change(variant2, variant1)
    ensures Change(variant1, variant2) == 1 <==>
              exists a :: a != "0" && (a in variant1) != (a in variant2)
  {
    if Change(variant1, variant2) == 1 {
      var a :| (a in NonReference(variant1)) != (a in NonReference(variant2));
    }
  }

  /** What one row adds to a pair's counter, from the two raw sample columns. */
  function Increment(field1: string, field2: string): nat {
    Change(Alleles(field1), Alleles(field2))
  }

  /** A phased and an unphased homozygous call agree; reference and
      heterozygous calls differ. */
  lemma {:induction false} IncrementScenarios()
    ensures Increment("1|1", "1/1") == 0
    ensures Increment("0|0", "0|1") == 1
  {
    CallAlleles('1', '|', '1');
    CallAlleles('1', '/', '1');
    CallAlleles('0', '|', '0');
    CallAlleles('0', '|', '1');
    assert "1" in NonReference(Alleles("0|1"));
  }

  /** A diploid call of two single-digit alleles. */
  lemma CallAlleles(x: char, c: char, y: char)
    requires '0' <= x <= '9' && '0' <= y <= '9' && (c == '/' || c == '|')
    ensures Alleles([x, c, y]) == [[x], [y]]
  {
    AllelesUnstripped([x, c, y]);
    CallPieces(x, c, y);
  }

  /** A GT call without `:` and without whitespace has its pieces as alleles. */
  lemma AllelesUnstripped(field: string)
    requires ':' !in field
    requires forall ch :: ch in field ==> !IsSpace(ch)
    ensures Alleles(field) == Pieces(field)
  {
    GenotypeTextMeaning(field);
    var pieces := Pieces(field);
    forall k | 0 <= k < |pieces| ensures Strip(pieces[k]) == pieces[k] {
      PieceChars(field, k);
      StripNoSpace(pieces[k]);
    }
  }

  lemma CallPieces(x: char, c: char, y: char)
    requires '0' <= x <= '9' && '0' <= y <= '9' && (c == '/' || c == '|')
    ensures Pieces([x, c, y]) == [[x], [y]]
  {
    assert [x, c, y] == [x] + [c] + [y];
    SplitCons([x], c, [y]);
    SplitSingle([y], c);
  }

  /** Every row has the columns `i` and `j`. */
  ghost predicate Covers<T>(rows: seq<seq<T>>, i: nat, j: nat) {
    forall r :: 0 <= r < |rows| ==> i < |rows[r]| && j < |rows[r]|
  }

  /** The number of rows, each given as its parsed calls, whose columns `i`
      and `j` differ. */
  function DiffCount(rows: seq<seq<seq<string>>>, i: nat, j: nat): nat
    requires Covers(rows, i, j)
  {
    if |rows| == 0 then 0
    else
      var last := rows[|rows| - 1];
      DiffCount(rows[..|rows| - 1], i, j) + Change(last[i], last[j])
  }

  /** A counter never exceeds the number of rows, and does not depend on the
      order of the pair. */
  lemma {:induction false} DiffCountBounds(rows: seq<seq<seq<string>>>, i: nat, j: nat)
    requires Covers(rows, i, j)
    ensures DiffCount(rows, i, j) <= |rows|
    ensures DiffCount(rows, i, j) == DiffCount(rows, j, i)
  {
    if |rows| > 0 {
      DiffCountBounds(rows[..|rows| - 1], i, j);
      var last := rows[|rows| - 1];
      ChangeMeaning(last[i], last[j]);
    }
  }

  /** One more row: the counter grows by that row's difference. */
  lemma DiffCountSnoc(rows: seq<seq<seq<string>>>, row: seq<seq<string>>, i: nat, j: nat)
    requires Covers(rows, i, j) && i < |row| && j < |row|
    ensures Covers(rows + [row], i, j)
    ensures DiffCount(rows + [row], i, j) == DiffCount(rows, i, j) + Change(row[i], row[j])
  {
    assert (rows + [row])[..|rows|] == rows;
  }

  /** The header loop of `process_individuals`: each wanted name found in the
      header mapped to a column; a name the header repeats keeps its last column. */
  function HeaderIndex(header: seq<string>, wanted: seq<string>): map<string, nat>
  {
    if |header| == 0 then map[]
    else
      var m := HeaderIndex(header[..|header| - 1], wanted);
      var x := header[|header| - 1];
      if x in wanted then m[x := |header| - 1] else m
  }

  /** The map holds exactly the wanted names of the header, each at the last
      column that carries it. */
  lemma {:induction false} HeaderIndexMeaning(header: seq<string>, wanted: seq<string>)
    ensures var m := HeaderIndex(header, wanted);
            forall x :: x in m <==> x in header && x in wanted
    ensures var m := HeaderIndex(header, wanted);
            forall x :: x in m ==> m[x] < |header| && header[m[x]] == x
    ensures var m := HeaderIndex(header, wanted);
            forall x :: x in m ==> forall j :: m[x] < j < |header| ==> header[j] != x
  {
    if |header| > 0 {
      var init := header[..|header| - 1];
      HeaderIndexMeaning(init, wanted);
      assert header == init + [header[|header| - 1]];
    }
  }

  /** The header names that are wanted, in header order. */
  function Selected(header: seq<string>, wanted: seq<string>): (r: seq<string>)
    ensures forall x :: x in r <==> x in header && x in wanted
  {
    if |header| == 0 then []
    else
      var x := header[|header| - 1];
      Selected(header[..|header| - 1], wanted) + (if x in wanted then [x] else [])
  }

  /** The position of the first wanted name that the header lacks, if any. */
  function FirstAbsent(wanted: seq<string>, header: seq<string>): (r: Option<nat>)
    ensures r.None? <==> forall k :: 0 <= k < |wanted| ==> wanted[k] in header
    ensures r.Some? ==> r.value < |wanted| && wanted[r.value] !in header &&
                        forall j :: 0 <= j < r.value ==> wanted[j] in header
  {
    if |wanted| == 0 then None
    else if wanted[0] !in header then Some(0)
    else
      match FirstAbsent(wanted[1..], header)
      case None => None
      case Some(i) => Some(i + 1)
  }

  /** A sequence has at least as many entries as its set of elements. */
  lemma {:induction false} SetOfSeqSize(s: seq<string>)
    ensures |set x | x in s| <= |s|
  {
    if |s| > 0 {
      SetOfSeqSize(s[1..]);
      assert (set x | x in s) == (set x | x in s[1..]) + {s[0]};
    }
  }

  lemma SubsetSize(a: set<string>, b: set<string>)
    requires a <= b
    ensures |a| <= |b|
  {
    assert b == a + (b - a);
  }

  lemma ProperSubsetSmaller(a: set<string>, b: set<string>, x: string)
    requires a <= b && x in b && x !in a
    ensures |a| < |b|
  {
    assert |b - {x}| == |b| - 1;
    SubsetSize(a, b - {x});
  }

  /** On a fresh comparer the missing-individual error fires exactly when a
      configured individual is absent from the header: the length test can
      then never hide one. */
  lemma MissingIffAbsent(header: seq<string>, wanted: seq<string>)
    ensures (|wanted| > |HeaderIndex(header, wanted).Keys| && FirstAbsent(wanted, header).Some?) <==>
            exists k :: 0 <= k < |wanted| && wanted[k] !in header
  {
    var keys := HeaderIndex(header, wanted).Keys;
    HeaderIndexMeaning(header, wanted);
    var r := FirstAbsent(wanted, header);
    if r.Some? {
      var all := set x | x in wanted;
      assert keys <= all;
      assert wanted[r.value] in all;
      ProperSubsetSmaller(keys, all, wanted[r.value]);
      SetOfSeqSize(wanted);
    }
  }

  /** A sequence without repeats has exactly as many entries as its set of elements. */
  lemma {:induction false} DistinctSetSize(s: seq<string>)
    requires Distinct(s)
    ensures |set x | x in s| == |s|
  {
    if |s| > 0 {
      DistinctSetSize(s[1..]);
      assert (set x | x in s) == (set x | x in s[1..]) + {s[0]};
      assert s[0] !in s[1..];
    }
  }

  /** A later header is merged into the map of an earlier one, never replacing
      it: a configured individual that the first header had and the later one
      lacks keeps its old column, and since the length test counts the merged
      map, nobody is reported missing. */
  lemma StaleColumnKept(first: seq<string>, second: seq<string>, wanted: seq<string>, x: string)
    requires Distinct(wanted)
    requires forall k :: 0 <= k < |wanted| ==> wanted[k] in first
    requires x in wanted && x !in second
    ensures var m := HeaderIndex(first, wanted) + HeaderIndex(second, wanted);
            && x in HeaderIndex(first, wanted) && x in m && m[x] == HeaderIndex(first, wanted)[x]
            && m[x] < |first| && first[m[x]] == x
            && Missing(wanted, second, |m.Keys|).None?
  {
    var m := HeaderIndex(first, wanted) + HeaderIndex(second, wanted);
    HeaderIndexMeaning(first, wanted);
    HeaderIndexMeaning(second, wanted);
    assert m.Keys == set y | y in wanted;
    DistinctSetSize(wanted);
  }

  /** The first error, if any, of the transformation loop of `process_data`
      over the column numbers `idxs` of a row with `n` columns: a column
      beyond the row, or one already transformed (its value is then a list). */
  function TransformError(idxs: seq<nat>, n: nat): Option<Error> {
    if |idxs| == 0 then None
    else
      var init := idxs[..|idxs| - 1];
      var last := idxs[|idxs| - 1];
      if TransformError(init, n).Some? then TransformError(init, n)
      else if last >= n then Some(IndexError)
      else if last in init then Some(AttributeError)
      else None
  }

  /** The loop passes exactly when every column exists and none is visited twice. */
  lemma {:induction false} TransformErrorIff(idxs: seq<nat>, n: nat)
    ensures TransformError(idxs, n).None? <==> (forall k :: 0 <= k < |idxs| ==> idxs[k] < n) && Distinct(idxs)
  {
    if |idxs| > 0 {
      var init := idxs[..|idxs| - 1];
      TransformErrorIff(init, n);
      if TransformError(idxs, n).None? {
        forall i, j | 0 <= i < j < |idxs| ensures idxs[i] != idxs[j] {
          if j < |idxs| - 1 { assert init[i] == idxs[i] && init[j] == idxs[j]; }
          else { assert idxs[i] == init[i]; }
        }
      }
      if (forall k :: 0 <= k < |idxs| ==> idxs[k] < n) && Distinct(idxs) {
        assert forall k :: 0 <= k < |init| ==> init[k] == idxs[k];
      }
    }
  }

  /** The dictionary `terminate` builds: every pair under both of its orders,
      a later pair overwriting. */
  function TableOf(pairs: seq<(string, string)>, values: seq<nat>): (t: map<(string, string), nat>)
    requires |pairs| == |values|
  {
    if |pairs| == 0 then map[]
    else
      var n := |pairs| - 1;
      TableOf(pairs[..n], values[..n])[(pairs[n].0, pairs[n].1) := values[n]][(pairs[n].1, pairs[n].0) := values[n]]
  }

  /** The table is symmetric, and holds a key exactly when some pair gives it
      in one order or the other. */
  lemma {:induction false} TableOfSymmetric(pairs: seq<(string, string)>, values: seq<nat>, a: string, b: string)
    requires |pairs| == |values|
    ensures (a, b) in TableOf(pairs, values) <==> (b, a) in TableOf(pairs, values)
    ensures (a, b) in TableOf(pairs, values) ==> TableOf(pairs, values)[(a, b)] == TableOf(pairs, values)[(b, a)]
    ensures (a, b) in TableOf(pairs, values) <==> (a, b) in pairs || (b, a) in pairs
  {
    if |pairs| > 0 {
      var n := |pairs| - 1;
      TableOfSymmetric(pairs[..n], values[..n], a, b);
      assert pairs == pairs[..n] + [pairs[n]];
    }
  }

  /** A pair that no later pair repeats, in either order, keeps its value. */
  lemma {:induction false} TableOfLastWins(pairs: seq<(string, string)>, values: seq<nat>, k: nat)
    requires |pairs| == |values| && k < |pairs|
    requires forall l :: k < l < |pairs| ==> pairs[l] != pairs[k] && pairs[l] != (pairs[k].1, pairs[k].0)
    ensures pairs[k] in TableOf(pairs, values) && TableOf(pairs, values)[pairs[k]] == values[k]
    ensures (pairs[k].1, pairs[k].0) in TableOf(pairs, values)
    ensures TableOf(pairs, values)[(pairs[k].1, pairs[k].0)] == values[k]
  {
    var n := |pairs| - 1;
    if k < n {
      TableOfLastWins(pairs[..n], values[..n], k);
    }
  }

  /** The pairs of a sequence without repetitions are never repeated, in
      either order, and never pair an element with itself. */
  lemma {:induction false} CombinationsUnordered(s: seq<string>)
    requires Distinct(s)
    ensures forall k :: 0 <= k < |Combinations(s)| ==> Combinations(s)[k].0 != Combinations(s)[k].1
    ensures forall k, l :: 0 <= k < l < |Combinations(s)| ==>
              Combinations(s)[l] != Combinations(s)[k] &&
              Combinations(s)[l] != (Combinations(s)[k].1, Combinations(s)[k].0)
  {
    if |s| > 0 {
      var rest := s[1..];
      assert Distinct(rest) by {
        forall i, j | 0 <= i < j < |rest| ensures rest[i] != rest[j] { assert rest[i] == s[i + 1]; }
      }
      assert s[0] !in rest by {
        forall i | 0 <= i < |rest| ensures rest[i] != s[0] { assert rest[i] == s[i + 1]; }
      }
      CombinationsUnordered(rest);
      var c := Combinations(s);
      var n := |rest|;
      forall k | 0 <= k < |c| ensures c[k].0 != c[k].1 {
        if k < n { CombinationsFront(s, k); } else { CombinationsBack(s, k); }
      }
      forall k, l | 0 <= k < l < |c|
        ensures c[l] != c[k] && c[l] != (c[k].1, c[k].0)
      {
        CombinationsBoth(s, k, l);
      }
    }
  }

  /** Two positions of the pairs of a sequence without repetitions, read
      through the first pairs and the pairs of the tail. */
  lemma CombinationsBoth(s: seq<string>, k: nat, l: nat)
    requires |s| > 0 && Distinct(s[1..]) && s[0] !in s[1..]
    requires k < l < |Combinations(s)|
    requires forall k, l :: 0 <= k < l < |Combinations(s[1..])| ==>
               Combinations(s[1..])[l] != Combinations(s[1..])[k] &&
               Combinations(s[1..])[l] != (Combinations(s[1..])[k].1, Combinations(s[1..])[k].0)
    ensures Combinations(s)[l] != Combinations(s)[k]
    ensures Combinations(s)[l] != (Combinations(s)[k].1, Combinations(s)[k].0)
  {
    var n := |s| - 1;
    if l < n {
      CombinationsFront(s, k);
      CombinationsFront(s, l);
    } else if k < n {
      CombinationsFront(s, k);
      CombinationsBack(s, l);
    } else {
      CombinationsBack(s, k);
      CombinationsBack(s, l);
    }
  }

  /** The first pairs pair the head with each later element. */
  lemma CombinationsFront<T>(s: seq<T>, k: nat)
    requires k < |s| - 1
    ensures k < |Combinations(s)| && Combinations(s)[k] == (s[0], s[1..][k])
  {
    assert Combinations(s) == Pairs(s[0], s[1..]) + Combinations(s[1..]);
  }

  /** The later pairs are those of the tail. */
  lemma CombinationsBack<T>(s: seq<T>, k: nat)
    requires |s| > 0 && |s| - 1 <= k < |Combinations(s)|
    ensures Combinations(s)[k] == Combinations(s[1..])[k - (|s| - 1)]
    ensures Combinations(s)[k].0 in s[1..] && Combinations(s)[k].1 in s[1..]
  {
    assert Combinations(s) == Pairs(s[0], s[1..]) + Combinations(s[1..]);
    CombinationsParts(s[1..], k - (|s| - 1));
  }

  /** Both parts of every pair come from the sequence. */
  lemma CombinationsParts<T>(s: seq<T>, k: nat)
    requires k < |Combinations(s)|
    ensures Combinations(s)[k].0 in s && Combinations(s)[k].1 in s
  {
    var p := Combinations(s)[k];
    CombinationsMember(s, p.0, p.1);
  }

  /** A column map and its key order: each key listed once. */
  ghost predicate KeyedBy(indices: map<string, nat>, order: seq<string>) {
    Distinct(order) && forall x :: x in indices <==> x in order
  }

  /** The header loop of `process_individuals` on the column map `indices`
      with key order `order`: each wanted name is (re)mapped to its column,
      and a name not yet a key joins the end of the key order. */
  method MapHeader(indices0: map<string, nat>, order0: seq<string>, header: seq<string>, wanted: seq<string>)
    returns (indices: map<string, nat>, order: seq<string>)
    requires KeyedBy(indices0, order0)
    ensures KeyedBy(indices, order)
    ensures indices == indices0 + HeaderIndex(header, wanted)
    ensures order == Unique(order0 + Selected(header, wanted))
  {
    indices, order := indices0, order0;
    assert header[..0] == [];
    assert indices0 + HeaderIndex(header[..0], wanted) == indices0;
    var k := 0;
    while k < |header|
      invariant 0 <= k <= |header|
      invariant indices == indices0 + HeaderIndex(header[..k], wanted)
      invariant order == KeyOrderAfter(order0, header[..k], wanted)
    {
      var x := header[k];
      HeaderSnoc(header, wanted, k);
      assert header[..k + 1][..k] == header[..k];
      if x in wanted {
        MergeUpdate(indices0, HeaderIndex(header[..k], wanted), x, k);
        indices := indices[x := k];
        if x !in order {
          order := order + [x];
        }
      }
      k := k + 1;
    }
    assert header[..k] == header;
    KeyOrderIsUnique(order0, header, wanted);
    HeaderIndexMeaning(header, wanted);
  }

  /** The key order the header loop leaves: a wanted name not yet a key is appended. */
  function KeyOrderAfter(order0: seq<string>, header: seq<string>, wanted: seq<string>): seq<string>
  {
    if |header| == 0 then order0
    else
      var order := KeyOrderAfter(order0, header[..|header| - 1], wanted);
      var x := header[|header| - 1];
      if x in wanted && x !in order then order + [x] else order
  }

  /** That key order is the first-occurrence order of the old keys followed by
      the wanted header names. */
  lemma {:induction false} KeyOrderIsUnique(order0: seq<string>, header: seq<string>, wanted: seq<string>)
    requires Distinct(order0)
    ensures KeyOrderAfter(order0, header, wanted) == Unique(order0 + Selected(header, wanted))
  {
    if |header| == 0 {
      assert order0 + Selected(header, wanted) == order0;
      UniqueOfDistinct(order0);
    } else {
      var init := header[..|header| - 1];
      var x := header[|header| - 1];
      KeyOrderIsUnique(order0, init, wanted);
      if x in wanted {
        assert order0 + Selected(header, wanted) == order0 + Selected(init, wanted) + [x];
        UniqueSnoc(order0 + Selected(init, wanted), x);
      } else {
        assert order0 + Selected(header, wanted) == order0 + Selected(init, wanted);
      }
    }
  }

  /** One more header column. */
  lemma HeaderSnoc(header: seq<string>, wanted: seq<string>, k: nat)
    requires k < |header|
    ensures HeaderIndex(header[..k + 1], wanted) ==
            if header[k] in wanted then HeaderIndex(header[..k], wanted)[header[k] := k] else HeaderIndex(header[..k], wanted)
    ensures Selected(header[..k + 1], wanted) ==
            Selected(header[..k], wanted) + (if header[k] in wanted then [header[k]] else [])
  {
    assert header[..k + 1][..k] == header[..k];
  }

  /** Updating the right operand of a map merge updates the merge. */
  lemma MergeUpdate(a: map<string, nat>, b: map<string, nat>, x: string, v: nat)
    ensures a + b[x := v] == (a + b)[x := v]
  {
  }

  /** The search of `process_individuals` for the first configured
      individual missing from the header. */
  method FindAbsent(wanted: seq<string>, header: seq<string>) returns (r: Option<nat>)
    ensures r == FirstAbsent(wanted, header)
  {
    var j := 0;
    while j < |wanted|
      invariant 0 <= j <= |wanted|
      invariant forall i :: 0 <= i < j ==> wanted[i] in header
    {
      if wanted[j] !in header {
        return Some(j);
      }
      j := j + 1;
    }
    return None;
  }

  /** The end of the header step of `process_individuals`: when fewer than
      all configured individuals were found as columns, the first one absent
      from the header is reported. */
  function Missing(wanted: seq<string>, header: seq<string>, found: nat): (r: Option<Error>)
    ensures r.Some? <==> |wanted| > found && exists k :: 0 <= k < |wanted| && wanted[k] !in header
    ensures r.Some? ==> exists k :: 0 <= k < |wanted| && wanted[k] !in header && r.value == MissingIndividual(wanted[k]) &&
                          forall j :: 0 <= j < k ==> wanted[j] in header
  {
    if |wanted| > found then
      match FirstAbsent(wanted, header)
      case Some(k) => Some(MissingIndividual(wanted[k]))
      case None => None
    else None
  }

  method MissingFrom(wanted: seq<string>, header: seq<string>, found: nat) returns (err: Option<Error>)
    ensures err == Missing(wanted, header, found)
  {
    err := None;
    if |wanted| > found {
      var absent := FindAbsent(wanted, header);
      if absent.Some? {
        err := Some(MissingIndividual(wanted[absent.value]));
      }
    }
  }

  /** The transformation loop of `process_data` over the columns `idxs`,
      reduced to the error it raises on a row of `n` columns. */
  method CheckColumns(idxs: seq<nat>, n: nat) returns (err: Option<Error>)
    ensures err == TransformError(idxs, n)
  {
    var k := 0;
    while k < |idxs|
      invariant 0 <= k <= |idxs|
      invariant TransformError(idxs[..k], n).None?
    {
      assert idxs[..k + 1][..k] == idxs[..k];
      if idxs[k] >= n || idxs[k] in idxs[..k] {
        TransformStops(idxs, n, k + 1);
        return Some(if idxs[k] >= n then IndexError else AttributeError);
      }
      k := k + 1;
    }
    assert idxs[..k] == idxs;
    return None;
  }

  /** The pairs built from `keys` and their columns `index` count, pair by
      pair, the rows in which the two columns differ. */
  ghost predicate Counts(keys: seq<string>, index: map<string, nat>, pairs: seq<(string, string)>,
                         idxPairs: seq<(nat, nat)>, values: seq<nat>, rows: seq<seq<seq<string>>>)
  {
    && Distinct(keys)
    && (forall k :: 0 <= k < |keys| ==> keys[k] in index)
    && pairs == Combinations(keys)
    && idxPairs == Combinations(Lookup(keys, index))
    && |values| == |pairs| == |idxPairs|
    && (forall k :: 0 <= k < |idxPairs| ==> Covers(rows, idxPairs[k].0, idxPairs[k].1))
    && (forall k :: 0 <= k < |values| ==> values[k] == DiffCount(rows, idxPairs[k].0, idxPairs[k].1))
  }

  /** Zeroed counters count an empty list of rows. */
  lemma FreshCounts(keys: seq<string>, index: map<string, nat>)
    requires KeyedBy(index, keys)
    ensures Counts(keys, index, Combinations(keys), Combinations(Lookup(keys, index)),
                   seq(|Combinations(keys)|, _ => 0), [])
  {
    CombinationsLookup(keys, index);
  }

  /** Every column a pair of `Combinations(Lookup(keys, index))` names is one of the looked-up columns. */
  lemma PairColumns(keys: seq<string>, index: map<string, nat>, idx: seq<(nat, nat)>)
    requires forall k :: 0 <= k < |keys| ==> keys[k] in index
    requires idx == Combinations(Lookup(keys, index))
    ensures forall k :: 0 <= k < |idx| ==> idx[k].0 in Lookup(keys, index) && idx[k].1 in Lookup(keys, index)
  {
    forall k | 0 <= k < |idx| ensures idx[k].0 in Lookup(keys, index) && idx[k].1 in Lookup(keys, index) {
      CombinationsParts(Lookup(keys, index), k);
    }
  }

  /** Adding each pair's difference on one more row keeps the counters counting. */
  lemma RowCounts(keys: seq<string>, index: map<string, nat>, pairs: seq<(string, string)>,
                  idxPairs: seq<(nat, nat)>, values: seq<nat>, rows: seq<seq<seq<string>>>,
                  row: seq<seq<string>>, next: seq<nat>)
    requires Counts(keys, index, pairs, idxPairs, values, rows)
    requires forall k :: 0 <= k < |idxPairs| ==> idxPairs[k].0 < |row| && idxPairs[k].1 < |row|
    requires |next| == |values|
    requires forall k :: 0 <= k < |next| ==>
               next[k] == values[k] + Change(row[idxPairs[k].0], row[idxPairs[k].1])
    ensures Counts(keys, index, pairs, idxPairs, next, rows + [row])
  {
    forall k | 0 <= k < |idxPairs|
      ensures Covers(rows + [row], idxPairs[k].0, idxPairs[k].1)
      ensures DiffCount(rows + [row], idxPairs[k].0, idxPairs[k].1) ==
              DiffCount(rows, idxPairs[k].0, idxPairs[k].1) + Change(row[idxPairs[k].0], row[idxPairs[k].1])
    {
      DiffCountSnoc(rows, row, idxPairs[k].0, idxPairs[k].1);
    }
  }

  /** The first loop of `process_data`: the sample columns parsed by
      `process_variant`. */
  function Variants(data: seq<string>): seq<seq<string>> {
    seq(|data|, c requires 0 <= c < |data| => Alleles(data[c]))
  }

  /** The second loop of `process_data`: each pair's counter grows by
      `update_comparison` of its two parsed columns. */
  method RowValues(values: seq<nat>, idxPairs: seq<(nat, nat)>, variants: seq<seq<string>>) returns (next: seq<nat>)
    requires |values| == |idxPairs|
    requires forall j :: 0 <= j < |idxPairs| ==> idxPairs[j].0 < |variants| && idxPairs[j].1 < |variants|
    ensures |next| == |values|
    ensures forall k :: 0 <= k < |next| ==>
              next[k] == values[k] + Change(variants[idxPairs[k].0], variants[idxPairs[k].1])
  {
    next := [];
    var i := 0;
    while i < |idxPairs|
      invariant 0 <= i <= |idxPairs| && |next| == i
      invariant forall j :: 0 <= j < i ==>
                  next[j] == values[j] + Change(variants[idxPairs[j].0], variants[idxPairs[j].1])
    {
      next := next + [values[i] + Change(variants[idxPairs[i].0], variants[idxPairs[i].1])];
      i := i + 1;
    }
  }

  /** Counting on the parsed columns is counting the raw columns' differences. */
  lemma VariantsIncrement(values: seq<nat>, idxPairs: seq<(nat, nat)>, data: seq<string>, next: seq<nat>)
    requires |next| == |values| == |idxPairs|
    requires forall j :: 0 <= j < |idxPairs| ==> idxPairs[j].0 < |data| && idxPairs[j].1 < |data|
    requires forall k :: 0 <= k < |next| ==>
               next[k] == values[k] + Change(Variants(data)[idxPairs[k].0], Variants(data)[idxPairs[k].1])
    ensures forall k :: 0 <= k < |next| ==>
              next[k] == values[k] + Increment(data[idxPairs[k].0], data[idxPairs[k].1])
  {
  }

  /** The loop of `terminate`: each pair's counter stored under both orders. */
  method BuildTable(pairs: seq<(string, string)>, values: seq<nat>) returns (t: map<(string, string), nat>)
    requires |pairs| == |values|
    ensures t == TableOf(pairs, values)
  {
    t := map[];
    var i := 0;
    while i < |pairs|
      invariant 0 <= i <= |pairs|
      invariant t == TableOf(pairs[..i], values[..i])
    {
      assert pairs[..i + 1][..i] == pairs[..i] && values[..i + 1][..i] == values[..i];
      var (id1, id2) := pairs[i];
      t := t[(id1, id2) := values[i]][(id2, id1) := values[i]];
      i := i + 1;
    }
    assert pairs[..i] == pairs && values[..i] == values;
  }

  /** The comparer. `pairKeys` and `pairIndex` record, as ghost state, the
      individuals and columns the current pairs were built from, and `rows`
      the data rows read since, each as the parsed calls of its sample
      columns; `values` then holds, pair by pair, how many
      of those rows differ. `table` is `None` until `terminate` has replaced
      the list of counters by the dictionary. */
  class DefaultComparer {
    var hasGenotypeField: Option<bool>
    var inputIndividuals: Option<seq<string>>
    var indices: map<string, nat>
    var keyOrder: seq<string>            // key order of individual_indeces
    var pairs: seq<(string, string)>
    var idxPairs: seq<(nat, nat)>
    var values: seq<nat>
    var table: Option<map<(string, string), nat>>
    ghost var pairKeys: seq<string>
    ghost var pairIndex: map<string, nat>
    ghost var rows: seq<seq<seq<string>>>   // the calls of each data row, parsed

    ghost predicate Valid()
      reads this
    {
      && KeyedBy(indices, keyOrder)
      && Counts(pairKeys, pairIndex, pairs, idxPairs, values, rows)
      && (table.Some? ==> table.value == TableOf(pairs, values))
    }

    /** Every column the pairs refer to is one `process_data` transforms; this
        holds except after a header has raised the missing-individual error. */
    ghost predicate Aligned()
      reads this
      requires Valid()
    {
      table.None? ==> forall k :: 0 <= k < |idxPairs| ==>
        idxPairs[k].0 in Lookup(keyOrder, indices) && idxPairs[k].1 in Lookup(keyOrder, indices)
    }

    constructor ()
      ensures Valid() && Aligned()
      ensures hasGenotypeField == None && inputIndividuals == None && indices == map[] && keyOrder == []
      ensures pairs == [] && values == [] && table == None
    {
      hasGenotypeField := None;
      inputIndividuals := None;
      indices := map[];
      keyOrder := [];
      pairs := [];
      idxPairs := [];
      values := [];
      table := None;
      pairKeys := [];
      pairIndex := map[];
      rows := [];
    }

    /** `set_individuals`: to be called before `run`, on a comparer that has
        no pairs yet or has finished a run. */
    method SetIndividuals(input: seq<string>)
      requires Valid()
      requires idxPairs == [] || table.Some?
      modifies this
      ensures Valid() && Aligned()
      ensures inputIndividuals == Some(input) && indices == map[] && keyOrder == []
      ensures pairs == old(pairs) && values == old(values) && table == old(table)
    {
      inputIndividuals := Some(input);
      indices := map[];
      keyOrder := [];
    }

    /** `process_individuals`: the wanted names found in the header are
        (re)mapped to their columns, a configured name missing from the
        header may raise, and the pairs and their zeroed counters are rebuilt. */
    method ProcessIndividuals(individuals: seq<string>) returns (outcome: Outcome)
      requires Valid()
      modifies this
      ensures Valid()
      ensures hasGenotypeField == old(hasGenotypeField) && inputIndividuals == old(inputIndividuals)
      ensures old(inputIndividuals).None? ==> outcome == Fail(TypeError) && indices == old(indices)
      ensures old(inputIndividuals).Some? ==>
                var input := old(inputIndividuals).value;
                && indices == old(indices) + HeaderIndex(individuals, input)
                && keyOrder == Unique(old(keyOrder) + Selected(individuals, input))
                && (outcome.Fail? <==> Missing(input, individuals, |indices.Keys|).Some?)
                && (outcome.Fail? ==> outcome.error == Missing(input, individuals, |indices.Keys|).value)
                && (outcome.Pass? ==>
                      && Aligned()
                      && pairs == Combinations(keyOrder)
                      && idxPairs == Combinations(Lookup(keyOrder, indices))
                      && values == seq(|pairs|, _ => 0)
                      && table == None)
    {
      if inputIndividuals.None? {
        return Fail(TypeError);
      }
      var input := inputIndividuals.value;
      var missing := MapColumns(input, individuals);
      if missing.Some? {
        return Fail(missing.value);
      }
      outcome := Pass;
      ResetPairs();
    }

    /** The header loop of `process_individuals` and its check for a
        configured individual missing from the header; the pairs and their
        counters are left as they were. */
    method MapColumns(input: seq<string>, individuals: seq<string>) returns (missing: Option<Error>)
      requires Valid()
      modifies this
      ensures Valid()
      ensures indices == old(indices) + HeaderIndex(individuals, input)
      ensures keyOrder == Unique(old(keyOrder) + Selected(individuals, input))
      ensures missing == Missing(input, individuals, |indices.Keys|)
      ensures hasGenotypeField == old(hasGenotypeField) && inputIndividuals == old(inputIndividuals)
      ensures pairs == old(pairs) && idxPairs == old(idxPairs) && values == old(values) && table == old(table)
      ensures pairKeys == old(pairKeys) && pairIndex == old(pairIndex) && rows == old(rows)
    {
      indices, keyOrder := MapHeader(indices, keyOrder, individuals, input);
      missing := MissingFrom(input, individuals, |indices.Keys|);
    }

    /** The end of `process_individuals`: pairs of the found individuals, in
        key order, aligned with the pairs of their columns, and one zeroed
        counter per pair. */
    method ResetPairs()
      requires KeyedBy(indices, keyOrder)
      modifies this
      ensures Valid() && Aligned()
      ensures pairs == Combinations(keyOrder)
      ensures idxPairs == Combinations(Lookup(keyOrder, indices))
      ensures values == seq(|pairs|, _ => 0)
      ensures table == None && rows == []
      ensures keyOrder == old(keyOrder) && indices == old(indices)
      ensures hasGenotypeField == old(hasGenotypeField) && inputIndividuals == old(inputIndividuals)
    {
      FreshCounts(keyOrder, indices);
      pairs, idxPairs := Combinations(keyOrder), Combinations(Lookup(keyOrder, indices));
      values := seq(|pairs|, _ => 0);
      table := None;
      pairKeys, pairIndex, rows := keyOrder, indices, [];
      PairColumns(keyOrder, indices, idxPairs);
    }

    /** `process_data`: the sample columns of the configured individuals are
        parsed once each, then every pair's counter grows by 1 when its two
        calls differ. A column beyond the row, or one visited twice, raises
        first; after `terminate` the pair list is gone and the row raises. */
    method ProcessData(data: seq<string>) returns (outcome: Outcome)
      requires Valid() && Aligned()
      modifies this
      ensures Valid() && Aligned()
      ensures keyOrder == old(keyOrder) && indices == old(indices) && pairs == old(pairs)
      ensures idxPairs == old(idxPairs) && table == old(table) && inputIndividuals == old(inputIndividuals)
      ensures hasGenotypeField == old(hasGenotypeField)
      ensures TransformError(Lookup(keyOrder, indices), |data|).Some? ==>
                outcome == Fail(TransformError(Lookup(keyOrder, indices), |data|).value) && values == old(values)
      ensures TransformError(Lookup(keyOrder, indices), |data|).None? && table.Some? ==>
                outcome == Fail(TypeError) && values == old(values)
      ensures TransformError(Lookup(keyOrder, indices), |data|).None? && table.None? ==>
                && outcome == Pass
                && rows == old(rows) + [Variants(data)]
                && |values| == |old(values)|
                && forall k :: 0 <= k < |values| ==>
                     idxPairs[k].0 < |data| && idxPairs[k].1 < |data| &&
                     values[k] == old(values)[k] + Increment(data[idxPairs[k].0], data[idxPairs[k].1])
    {
      var idxs := Lookup(keyOrder, indices);
      var err := CheckColumns(idxs, |data|);
      if err.Some? {
        return Fail(err.value);
      }
      TransformErrorIff(idxs, |data|);
      if table.Some? {
        return Fail(TypeError);
      }
      assert forall j :: 0 <= j < |idxPairs| ==> idxPairs[j].0 < |data| && idxPairs[j].1 < |data|;
      AddRow(data);
      return Pass;
    }

    /** The counters after one more row: each pair's counter grows by the
        difference of its two columns in `data`. */
    method AddRow(data: seq<string>)
      requires Valid() && table.None?
      requires forall j :: 0 <= j < |idxPairs| ==> idxPairs[j].0 < |data| && idxPairs[j].1 < |data|
      modifies this
      ensures Valid()
      ensures keyOrder == old(keyOrder) && indices == old(indices) && pairs == old(pairs)
      ensures idxPairs == old(idxPairs) && table == old(table) && inputIndividuals == old(inputIndividuals)
      ensures hasGenotypeField == old(hasGenotypeField)
      ensures rows == old(rows) + [Variants(data)]
      ensures |values| == |old(values)|
      ensures forall k :: 0 <= k < |values| ==>
                values[k] == old(values)[k] + Increment(data[idxPairs[k].0], data[idxPairs[k].1])
    {
      var parsed := Variants(data);
      var next := RowValues(values, idxPairs, parsed);
      VariantsIncrement(values, idxPairs, data, next);
      RowCounts(pairKeys, pairIndex, pairs, idxPairs, values, rows, parsed, next);
      values := next;
      rows := rows + [parsed];
    }

    /** `terminate`: the list of counters becomes a dictionary holding every
        pair under both of its orders; a second call raises. */
    method Terminate() returns (outcome: Outcome)
      requires Valid()
      modifies this
      ensures Valid() && Aligned()
      ensures keyOrder == old(keyOrder) && indices == old(indices) && pairs == old(pairs)
      ensures values == old(values) && rows == old(rows) && pairIndex == old(pairIndex)
      ensures hasGenotypeField == old(hasGenotypeField)
      ensures old(table).Some? ==> outcome == Fail(TypeError) && table == old(table)
      ensures old(table).None? ==> outcome == Pass && table == Some(TableOf(pairs, values))
    {
      if table.Some? {
        return Fail(TypeError);
      }
      var t := BuildTable(pairs, values);
      table := Some(t);
      return Pass;
    }

    /** `compare(id1, id2)`: the counter of a pair read in either order, a key
        error for a pair never counted, a type error before `terminate`. */
    function Compare(id1: string, id2: string): (r: Result<nat>)
      reads this
      requires Valid()
      ensures table.None? ==> r == Err(TypeError)
      ensures table.Some? ==> (r.Ok? <==> (id1, id2) in pairs || (id2, id1) in pairs)
      ensures table.Some? && r.Err? ==> r.error == KeyError
    {
      if table.None? then Err(TypeError)
      else
        TableOfSymmetric(pairs, values, id1, id2);
        if (id1, id2) in table.value then Ok(table.value[(id1, id2)]) else Err(KeyError)
    }

    /** The comparer's hook for one event of the dispatcher: `process_meta`
        does nothing, the header and the data rows go to their methods. */
    method Handle(e: Event) returns (outcome: Outcome)
      requires Valid() && Aligned()
      modifies this
      ensures Valid()
      ensures outcome.Pass? ==> Aligned()
      ensures hasGenotypeField == old(hasGenotypeField)
      // any other event changes nothing
      ensures !e.Individuals? && !e.Data? ==> outcome == Pass && unchanged(this)
      // a header goes to `process_individuals`
      ensures e.Individuals? && old(inputIndividuals).None? ==> outcome == Fail(TypeError)
      ensures e.Individuals? && old(inputIndividuals).Some? ==>
                && indices == old(indices) + HeaderIndex(e.names, old(inputIndividuals).value)
                && (outcome.Pass? ==> pairs == Combinations(keyOrder) && values == seq(|pairs|, _ => 0))
      // a data row goes to `process_data`
      ensures e.Data? ==> indices == old(indices) && pairs == old(pairs)
      ensures e.Data? && outcome.Pass? ==> rows == old(rows) + [Variants(e.data)]
    {
      outcome := Pass;
      match e {
        case Individuals(names) =>
          outcome := ProcessIndividuals(names);
        case Data(_, _, data) =>
          outcome := ProcessData(data);
        case _ =>
      }
    }

    /** One line of `run`: the dispatcher cuts it, then the hook it selects runs. */
    method Step(line: string) returns (outcome: Outcome)
      requires Valid() && Aligned()
      modifies this
      ensures Valid()
      ensures outcome.Pass? ==> Aligned()
      ensures Dispatch(line, old(hasGenotypeField)).Err? ==> outcome == Fail(Dispatch(line, old(hasGenotypeField)).error)
      ensures outcome.Pass? ==> hasGenotypeField == Dispatch(line, old(hasGenotypeField)).value.1
      // the hook of the line's kind runs
      ensures Dispatch(line, old(hasGenotypeField)).Ok? ==>
                var e := Dispatch(line, old(hasGenotypeField)).value.0;
                && (e.Meta? ==> outcome == Pass && indices == old(indices) && pairs == old(pairs) && rows == old(rows))
                && (e.Individuals? && old(inputIndividuals).Some? ==>
                      indices == old(indices) + HeaderIndex(e.names, old(inputIndividuals).value))
                && (e.Data? ==> indices == old(indices) && pairs == old(pairs))
                && (e.Data? && outcome.Pass? ==> rows == old(rows) + [Variants(e.data)])
    {
      var r := Dispatch(line, hasGenotypeField);
      if r.Err? {
        return Fail(r.error);
      }
      hasGenotypeField := r.value.1;
      outcome := Handle(r.value.0);
    }

    /** `run(stream)` with the comparer's hooks: `process_meta` does nothing,
        the header and the data rows update the counters, and `terminate`
        closes a run that raised nothing. */
    method Run(lines: seq<string>) returns (outcome: Outcome)
      requires Valid() && Aligned()
      modifies this
      ensures Valid()
      ensures outcome.Pass? ==> table.Some?
      ensures outcome.Pass? ==> Scan(lines, old(hasGenotypeField)).failure.None?
      ensures outcome.Pass? ==> hasGenotypeField == Scan(lines, old(hasGenotypeField)).genotype
    {
      ghost var start := hasGenotypeField;
      var i := 0;
      while i < |lines|
        invariant 0 <= i <= |lines|
        invariant Valid() && Aligned()
        invariant Scan(lines[..i], start).failure.None?
        invariant hasGenotypeField == Scan(lines[..i], start).genotype
      {
        ScanSnoc(lines, start, i);
        var o := Step(lines[i]);
        if o.Fail? {
          return o;
        }
        i := i + 1;
      }
      assert lines[..i] == lines;
      outcome := Terminate();
    }
  }

  /** Once the transformation of a prefix has failed, the later columns are never reached. */
  lemma {:induction false} TransformStops(idxs: seq<nat>, n: nat, m: nat)
    requires m <= |idxs|
    requires TransformError(idxs[..m], n).Some?
    ensures TransformError(idxs, n) == TransformError(idxs[..m], n)
    decreases |idxs|
  {
    if m < |idxs| {
      var init := idxs[..|idxs| - 1];
      assert init[..m] == idxs[..m];
      TransformStops(init, n, m);
    } else {
      assert idxs[..m] == idxs;
    }
  }

  /** After `terminate` each counted pair reads, in either order, the number
      of data rows since the header on which its two individuals' calls
      differ; an individual is never paired with itself. */
  lemma TerminatedCounts(c: DefaultComparer)
    requires c.Valid() && c.table.Some?
    ensures forall k :: 0 <= k < |c.pairs| ==>
              && c.pairs[k].0 in c.pairIndex && c.pairs[k].1 in c.pairIndex
              && Covers(c.rows, c.pairIndex[c.pairs[k].0], c.pairIndex[c.pairs[k].1])
              && c.Compare(c.pairs[k].0, c.pairs[k].1) == Ok(DiffCount(c.rows, c.pairIndex[c.pairs[k].0], c.pairIndex[c.pairs[k].1]))
              && c.Compare(c.pairs[k].1, c.pairs[k].0) == c.Compare(c.pairs[k].0, c.pairs[k].1)
    ensures forall a :: c.Compare(a, a) == Err(KeyError)
  {
    CombinationsUnordered(c.pairKeys);
    CombinationsLookup(c.pairKeys, c.pairIndex);
    forall k | 0 <= k < |c.pairs|
      ensures c.pairs[k].0 in c.pairIndex && c.pairs[k].1 in c.pairIndex
      ensures Covers(c.rows, c.pairIndex[c.pairs[k].0], c.pairIndex[c.pairs[k].1])
      ensures c.Compare(c.pairs[k].0, c.pairs[k].1) == Ok(DiffCount(c.rows, c.pairIndex[c.pairs[k].0], c.pairIndex[c.pairs[k].1]))
      ensures c.Compare(c.pairs[k].1, c.pairs[k].0) == c.Compare(c.pairs[k].0, c.pairs[k].1)
    {
      TableOfLastWins(c.pairs, c.values, k);
    }
    forall a ensures c.Compare(a, a) == Err(KeyError) {
      assert (a, a) !in c.pairs;
    }
  }
}
