/** The polymorphism-list reader of predict.py: one identifier per line, with
    `#` comments and blank lines allowed. */
module PredictTool {
  import opened Text

  /** `[f(x) for x in s]`. */
  function Mapped<A, B>(f: A -> B, s: seq<A>): (r: seq<B>)
    ensures |r| == |s|
    ensures forall k :: 0 <= k < |s| ==> r[k] == f(s[k])
  {
    if |s| == 0 then [] else Mapped(f, s[..|s| - 1]) + [f(s[|s| - 1])]
  }

  lemma {:induction false} MappedAppend<A, B>(f: A -> B, a: seq<A>, b: seq<A>)
    ensures Mapped(f, a + b) == Mapped(f, a) + Mapped(f, b)
    decreases |b|
  {
    if |b| > 0 {
      assert (a + b)[..|a + b| - 1] == a + b[..|b| - 1];
      MappedAppend(f, a, b[..|b| - 1]);
    } else {
      assert a + b == a;
    }
  }

  lemma MappedMember<A, B>(f: A -> B, s: seq<A>, y: B)
    ensures y in Mapped(f, s) <==> exists k :: 0 <= k < |s| && f(s[k]) == y
  {
    if y in Mapped(f, s) {
      var k :| 0 <= k < |s| && Mapped(f, s)[k] == y;
    }
  }

  /** The entries that are not blank, in order, repeats included. */
  function NonBlank(entries: seq<string>): (r: seq<string>)
    ensures |r| <= |entries|
    ensures forall k :: 0 <= k < |r| ==> r[k] != "" && r[k] in entries
  {
    if |entries| == 0 then []
    else
      var last := entries[|entries| - 1];
      NonBlank(entries[..|entries| - 1]) + (if last == "" then [] else [last])
  }

  lemma {:induction false} NonBlankAppend(a: seq<string>, b: seq<string>)
    ensures NonBlank(a + b) == NonBlank(a) + NonBlank(b)
    decreases |b|
  {
    if |b| > 0 {
      assert (a + b)[..|a + b| - 1] == a + b[..|b| - 1];
      NonBlankAppend(a, b[..|b| - 1]);
    } else {
      assert a + b == a;
    }
  }

  lemma {:induction false} NonBlankMember(entries: seq<string>, x: string)
    ensures x in NonBlank(entries) <==> x != "" && x in entries
  {
    if |entries| > 0 {
      var init := entries[..|entries| - 1];
      NonBlankMember(init, x);
      assert entries == init + [entries[|entries| - 1]];
    }
  }

  /** The identifiers `read_polymorphisms` returns for `lines`: each line
      cleaned, blank results dropped, the rest kept in order, repeats
      included. There are no more entries than lines. */
  function Polymorphisms(lines: seq<string>): (r: seq<string>)
    ensures |r| <= |lines|
  {
    NonBlank(Mapped(CleanLine, lines))
  }

  /** Every identifier read is non-empty, holds no `#` and has no whitespace
      at either end. */
  lemma PolymorphismsShape(lines: seq<string>, x: string)
    requires x in Polymorphisms(lines)
    ensures |x| > 0 && '#' !in x && !IsSpace(x[0]) && !IsSpace(x[|x| - 1])
  {
    PolymorphismsMember(lines, x);
    var k :| 0 <= k < |lines| && CleanLine(lines[k]) == x;
  }

  /** Reading two parts of a file one after the other gives the two lists
      concatenated: input order and duplicates are kept. */
  lemma PolymorphismsAppend(a: seq<string>, b: seq<string>)
    ensures Polymorphisms(a + b) == Polymorphisms(a) + Polymorphisms(b)
  {
    MappedAppend(CleanLine, a, b);
    NonBlankAppend(Mapped(CleanLine, a), Mapped(CleanLine, b));
  }

  /** An identifier is listed exactly when some line cleans to it. */
  lemma PolymorphismsMember(lines: seq<string>, x: string)
    ensures x in Polymorphisms(lines) <==> x != "" && exists k :: 0 <= k < |lines| && CleanLine(lines[k]) == x
  {
    NonBlankMember(Mapped(CleanLine, lines), x);
    MappedMember(CleanLine, lines, x);
  }

  /** A single line gives its cleaned text, unless that is blank. */
  lemma PolymorphismsOne(line: string)
    ensures Polymorphisms([line]) == if CleanLine(line) == "" then [] else [CleanLine(line)]
  {
    var m := Mapped(CleanLine, [line]);
    assert m == [CleanLine(line)];
    assert m[..0] == [];
  }

  /** Reading one more line appends its cleaned text, unless that is blank. */
  lemma PolymorphismsSnoc(lines: seq<string>, i: nat)
    requires i < |lines|
    ensures Polymorphisms(lines[..i + 1]) ==
            Polymorphisms(lines[..i]) + (if CleanLine(lines[i]) == "" then [] else [CleanLine(lines[i])])
  {
    var init, line := lines[..i], lines[i];
    assert lines[..i + 1] == init + [line];
    PolymorphismsAppend(init, [line]);
    PolymorphismsOne(line);
  }

  /** `read_polymorphisms(file)`, over the lines of the file. */
  method ReadPolymorphisms(lines: seq<string>) returns (result: seq<string>)
    ensures result == Polymorphisms(lines)
  {
    result := [];
    var i := 0;
    while i < |lines|
      invariant 0 <= i <= |lines|
      invariant result == Polymorphisms(lines[..i])
    {
      PolymorphismsSnoc(lines, i);
      var line := CleanLine(lines[i]);
      if line != "" {
        result := result + [line];
      }
      i := i + 1;
    }
    assert lines[..i] == lines;
  }
}
