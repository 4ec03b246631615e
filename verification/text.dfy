/** The few Python `str` operations the VCF tools rely on, over `seq<char>`. */
module Text {

  /** Python's `s.split(c)` for a one-character separator `c`: always at least
      one piece, and no piece holds the separator. */
  function Split(s: string, c: char): (r: seq<string>)
    ensures |r| >= 1
    ensures forall k :: 0 <= k < |r| ==> c !in r[k]
    decreases |s|
  {
    if |s| == 0 then [""]
    else
      var rest := Split(s[1..], c);
      if s[0] == c then [""] + rest
      else [[s[0]] + rest[0]] + rest[1..]
  }

  /** Python's `c.join(parts)` for a one-character separator. */
  function Join(parts: seq<string>, c: char): string
    requires |parts| >= 1
  {
    if |parts| == 1 then parts[0] else parts[0] + [c] + Join(parts[1..], c)
  }

  /** Splitting loses nothing: joining the pieces gives the line back. */
  lemma {:induction false} JoinSplit(s: string, c: char)
    ensures Join(Split(s, c), c) == s
    decreases |s|
  {
    if |s| > 0 {
      var rest := Split(s[1..], c);
      JoinSplit(s[1..], c);
      if s[0] == c {
        assert ([""] + rest)[1..] == rest;
      } else if |rest| > 1 {
        var parts := [[s[0]] + rest[0]] + rest[1..];
        assert parts[1..] == rest[1..];
        assert Join(rest, c) == rest[0] + [c] + Join(rest[1..], c);
        assert s == [s[0]] + s[1..];
      } else {
        assert s == [s[0]] + s[1..];
      }
    }
  }

  /** Splitting a piece free of the separator, followed by the separator. */
  lemma {:induction false} SplitCons(a: string, c: char, b: string)
    requires c !in a
    ensures Split(a + [c] + b, c) == [a] + Split(b, c)
    decreases |a|
  {
    if |a| == 0 {
      assert a + [c] + b == [c] + b;
      assert ([c] + b)[1..] == b;
    } else {
      SplitCons(a[1..], c, b);
      assert (a + [c] + b)[1..] == a[1..] + [c] + b;
      assert [a[0]] + a[1..] == a;
    }
  }

  /** A string free of the separator splits into itself. */
  lemma {:induction false} SplitSingle(a: string, c: char)
    requires c !in a
    ensures Split(a, c) == [a]
    decreases |a|
  {
    if |a| > 0 {
      SplitSingle(a[1..], c);
      assert [a[0]] + a[1..] == a;
    }
  }

  /** The other round trip: pieces free of the separator survive join then split. */
  lemma {:induction false} SplitJoin(parts: seq<string>, c: char)
    requires |parts| >= 1
    requires forall k :: 0 <= k < |parts| ==> c !in parts[k]
    ensures Split(Join(parts, c), c) == parts
  {
    if |parts| == 1 {
      SplitSingle(parts[0], c);
    } else {
      SplitJoin(parts[1..], c);
      SplitCons(parts[0], c, Join(parts[1..], c));
      assert [parts[0]] + parts[1..] == parts;
    }
  }

  /** Every character of a piece comes from the split string. */
  lemma {:induction false} SplitPieceChars(s: string, c: char)
    ensures forall k, ch :: 0 <= k < |Split(s, c)| && ch in Split(s, c)[k] ==> ch in s
    decreases |s|
  {
    if |s| > 0 {
      SplitPieceChars(s[1..], c);
      var rest := Split(s[1..], c);
      assert forall ch :: ch in s[1..] ==> ch in s;
      if s[0] != c {
        assert forall ch :: ch in [s[0]] + rest[0] ==> ch == s[0] || ch in rest[0];
      }
    }
  }

  /** Python's `s.find(c)`: the first index of `c`, or -1. */
  function Find(s: string, c: char): (i: int)
    ensures -1 <= i < |s|
    ensures i == -1 <==> c !in s
    ensures 0 <= i ==> s[i] == c && c !in s[..i]
  {
    if |s| == 0 then -1
    else if s[0] == c then 0
    else
      var j := Find(s[1..], c);
      assert s[1..][..j + 1] == s[1..j + 2] by { }
      if j == -1 then -1 else j + 1
  }

  /** The first piece of `s.split(c)` is the text before the first `c`, or all of `s`. */
  lemma {:induction false} SplitHead(s: string, c: char)
    ensures Split(s, c)[0] == if c in s then s[..Find(s, c)] else s
    decreases |s|
  {
    if |s| > 0 && s[0] != c {
      SplitHead(s[1..], c);
      assert [s[0]] + s[1..] == s;
      if c in s {
        assert c in s[1..];
        assert [s[0]] + s[1..][..Find(s[1..], c)] == s[..Find(s, c)];
      }
    }
  }

  /** Python's `s.rstrip(c)` for one character: every trailing `c` goes. */
  function RStrip(s: string, c: char): (r: string)
    ensures r <= s
    ensures |r| == 0 || r[|r| - 1] != c
    ensures forall k :: |r| <= k < |s| ==> s[k] == c
  {
    if |s| > 0 && s[|s| - 1] == c then RStrip(s[..|s| - 1], c) else s
  }

  /** Python's `str.startswith`. */
  predicate StartsWith(s: string, prefix: string) {
    |prefix| <= |s| && s[..|prefix|] == prefix
  }

  /** The characters for which Python's `str.isspace` holds. */
  predicate IsSpace(ch: char) {
    || ch == ' ' || '\t' <= ch <= '\r' || '\U{1c}' <= ch <= '\U{1f}'
    || ch == '\U{85}' || ch == '\U{a0}' || ch == '\U{1680}'
    || '\U{2000}' <= ch <= '\U{200a}' || ch == '\U{2028}' || ch == '\U{2029}'
    || ch == '\U{202f}' || ch == '\U{205f}' || ch == '\U{3000}'
  }

  /** Leading whitespace removed. */
  function LStripSpace(s: string): (r: string)
    ensures |r| <= |s| && r == s[|s| - |r|..]
    ensures |r| == 0 || !IsSpace(r[0])
    ensures forall k :: 0 <= k < |s| - |r| ==> IsSpace(s[k])
  {
    if |s| > 0 && IsSpace(s[0]) then LStripSpace(s[1..]) else s
  }

  /** Trailing whitespace removed. */
  function RStripSpace(s: string): (r: string)
    ensures r <= s
    ensures |r| == 0 || !IsSpace(r[|r| - 1])
    ensures forall k :: |r| <= k < |s| ==> IsSpace(s[k])
  {
    if |s| > 0 && IsSpace(s[|s| - 1]) then RStripSpace(s[..|s| - 1]) else s
  }

  /** Python's `s.strip()`: a factor of `s` with no whitespace at either end. */
  function Strip(s: string): (r: string)
    ensures |r| == 0 || (!IsSpace(r[0]) && !IsSpace(r[|r| - 1]))
    ensures forall ch :: ch in r ==> ch in s
    ensures |r| <= |s|
  {
    var t := RStripSpace(s);
    var r := LStripSpace(t);
    assert forall ch :: ch in r ==> ch in t;
    r
  }

  /** `strip()` cuts exactly a leading and a trailing run of whitespace: the
      result is `s[i..j]` with only whitespace outside it, and since neither
      end of the result is whitespace, both runs are the longest ones. */
  lemma StripMeaning(s: string)
    ensures exists i, j :: OnlySpaceOutside(s, i, j) && Strip(s) == s[i..j]
  {
    StripFactor(s);
  }

  /** `s[..i]` and `s[j..]` are whitespace only: cutting them off `s` leaves `s[i..j]`. */
  predicate OnlySpaceOutside(s: string, i: int, j: int) {
    && 0 <= i <= j <= |s|
    && (forall k :: 0 <= k < i ==> IsSpace(s[k]))
    && (forall k :: j <= k < |s| ==> IsSpace(s[k]))
  }

  /** The two one-sided strips together cut a leading and a trailing run of
      whitespace off `s`. */
  lemma StripFactor(s: string)
    ensures exists i, j :: OnlySpaceOutside(s, i, j) && LStripSpace(RStripSpace(s)) == s[i..j]
  {
    var t := RStripSpace(s);
    var r := LStripSpace(t);
    var i, j := |t| - |r|, |t|;
    assert t == s[..j];
    assert r == s[i..j];
    assert forall k :: 0 <= k < i ==> IsSpace(s[k]) by {
      forall k | 0 <= k < i ensures IsSpace(s[k]) { assert s[k] == t[k]; }
    }
    assert OnlySpaceOutside(s, i, j);
  }

  /** A string with no whitespace at either end is its own `strip()`. */
  lemma StripStripped(s: string)
    requires |s| == 0 || (!IsSpace(s[0]) && !IsSpace(s[|s| - 1]))
    ensures Strip(s) == s
  {
    assert RStripSpace(s) == s;
    assert LStripSpace(s) == s;
  }

  /** A non-empty run of non-whitespace characters. */
  predicate IsWord(w: string) {
    |w| > 0 && forall ch :: ch in w ==> !IsSpace(ch)
  }

  /** Length of the word at the front of `s`. */
  function WordLength(s: string): (n: nat)
    requires |s| > 0 && !IsSpace(s[0])
    ensures 1 <= n <= |s|
    ensures forall k :: 0 <= k < n ==> !IsSpace(s[k])
    ensures n < |s| ==> IsSpace(s[n])
  {
    if |s| == 1 || IsSpace(s[1]) then 1 else 1 + WordLength(s[1..])
  }

  /** Python's `s.split()` with no argument: the maximal runs of non-whitespace. */
  function SplitWords(s: string): (r: seq<string>)
    ensures forall k :: 0 <= k < |r| ==> IsWord(r[k])
    decreases |s|
  {
    if |s| == 0 then []
    else if IsSpace(s[0]) then SplitWords(s[1..])
    else
      var n := WordLength(s);
      [s[..n]] + SplitWords(s[n..])
  }

  /** Only a string of whitespace splits into no fields. */
  lemma {:induction false} SplitWordsEmpty(s: string)
    ensures SplitWords(s) == [] <==> forall k :: 0 <= k < |s| ==> IsSpace(s[k])
    decreases |s|
  {
    if |s| > 0 && IsSpace(s[0]) {
      SplitWordsEmpty(s[1..]);
      assert forall k :: 1 <= k < |s| ==> s[k] == s[1..][k - 1];
    }
  }

  /** A single word is its own only field. */
  lemma SplitWordsWord(w: string)
    requires IsWord(w)
    ensures SplitWords(w) == [w]
  {
    var n := WordLength(w);
    forall k | 0 <= k < |w| ensures !IsSpace(w[k]) { assert w[k] in w; }
    assert w[..n] == w && w[n..] == [];
  }

  /** The word at the front of `a` ends no later than `a` does, when a
      whitespace character follows `a`. */
  lemma {:induction false} WordLengthBefore(a: string, c: char, b: string)
    requires |a| > 0 && !IsSpace(a[0]) && IsSpace(c)
    ensures WordLength(a + [c] + b) == WordLength(a)
    decreases |a|
  {
    var s := a + [c] + b;
    if |a| > 1 && !IsSpace(a[1]) {
      assert s[1..] == a[1..] + [c] + b;
      WordLengthBefore(a[1..], c, b);
    }
  }

  /** A whitespace character separates fields: what lies before it and what
      lies after it split independently. */
  lemma {:induction false} SplitWordsAt(a: string, c: char, b: string)
    requires IsSpace(c)
    ensures SplitWords(a + [c] + b) == SplitWords(a) + SplitWords(b)
    decreases |a|, 1
  {
    var s := a + [c] + b;
    if |a| == 0 {
      assert s == [c] + b && s[1..] == b;
    } else if IsSpace(a[0]) {
      assert s[0] == a[0] && s[1..] == a[1..] + [c] + b;
      SplitWordsAt(a[1..], c, b);
    } else {
      SplitWordsAtWord(a, c, b);
    }
  }

  /** The case of `SplitWordsAt` where `a` starts with a word. */
  lemma {:induction false} SplitWordsAtWord(a: string, c: char, b: string)
    requires IsSpace(c) && |a| > 0 && !IsSpace(a[0])
    ensures SplitWords(a + [c] + b) == SplitWords(a) + SplitWords(b)
    decreases |a|, 0
  {
    var s := a + [c] + b;
    var n := WordLength(a);
    calc {
      SplitWords(s);
    == { assert s[0] == a[0];
         WordLengthBefore(a, c, b);
         assert s[..n] == a[..n];
         assert s[n..] == a[n..] + [c] + b; }
      [a[..n]] + SplitWords(a[n..] + [c] + b);
    == { SplitWordsAt(a[n..], c, b); }
      [a[..n]] + (SplitWords(a[n..]) + SplitWords(b));
    == ([a[..n]] + SplitWords(a[n..])) + SplitWords(b);
    }
  }

  /** The round trip of `' '.join(words).split()`: words joined by spaces
      split back into the same words. */
  lemma {:induction false} SplitWordsJoin(words: seq<string>)
    requires |words| >= 1
    requires forall k :: 0 <= k < |words| ==> IsWord(words[k])
    ensures SplitWords(Join(words, ' ')) == words
  {
    SplitWordsWord(words[0]);
    if |words| > 1 {
      SplitWordsJoin(words[1..]);
      SplitWordsAt(words[0], ' ', Join(words[1..], ' '));
      assert [words[0]] + words[1..] == words;
    }
  }

  /** Python's `<` on strings: lexicographic by code point, a proper prefix first. */
  predicate Less(a: string, b: string)
    decreases |a|
  {
    if |a| == 0 then |b| > 0
    else if |b| == 0 then false
    else a[0] < b[0] || (a[0] == b[0] && Less(a[1..], b[1..]))
  }

  lemma {:induction false} LessIrreflexive(a: string)
    ensures !Less(a, a)
    decreases |a|
  {
    if |a| > 0 { LessIrreflexive(a[1..]); }
  }

  lemma {:induction false} LessAsymmetric(a: string, b: string)
    requires Less(a, b)
    ensures !Less(b, a)
    decreases |a|
  {
    if |a| > 0 && |b| > 0 && a[0] == b[0] { LessAsymmetric(a[1..], b[1..]); }
  }

  /** Any two distinct strings are ordered one way or the other. */
  lemma {:induction false} LessTotal(a: string, b: string)
    requires a != b
    ensures Less(a, b) || Less(b, a)
    decreases |a|
  {
    if |a| > 0 && |b| > 0 && a[0] == b[0] {
      assert a == [a[0]] + a[1..] && b == [b[0]] + b[1..];
      LessTotal(a[1..], b[1..]);
    }
  }

  lemma {:induction false} LessTransitive(a: string, b: string, c: string)
    requires Less(a, b) && Less(b, c)
    ensures Less(a, c)
    decreases |a|
  {
    if |a| > 0 && a[0] == b[0] && b[0] == c[0] {
      LessTransitive(a[1..], b[1..], c[1..]);
    }
  }

  /** Python's `s[:n]`. */
  function Take<T>(s: seq<T>, n: nat): (r: seq<T>)
    ensures r <= s
    ensures |r| == if n <= |s| then n else |s|
  {
    if n <= |s| then s[..n] else s
  }

  /** Python's `s[n:]`: what `s[:n]` leaves over. */
  function Drop<T>(s: seq<T>, n: nat): (r: seq<T>)
    ensures Take(s, n) + r == s
  {
    if n <= |s| then s[n..] else []
  }

  /** The line clean-up shared by the population and polymorphism readers:
      trailing newlines removed, everything from the first `#` cut, then stripped. */
  function CleanLine(line: string): (r: string)
    ensures '#' !in r
    ensures |r| == 0 || (!IsSpace(r[0]) && !IsSpace(r[|r| - 1]))
  {
    var s := RStrip(line, '\n');
    var i := Find(s, '#');
    var cut := if i >= 0 then s[..i] else s;
    Strip(cut)
  }

  /** What the clean-up keeps: after the trailing newlines go, the `strip()` of
      the text before the first `#`, or of the whole line when it has none;
      that is, `line.rstrip('\n').split('#')[0].strip()`. */
  lemma CleanLineMeaning(line: string)
    ensures var t := RStrip(line, '\n');
            CleanLine(line) == Strip(if '#' in t then t[..Find(t, '#')] else t)
    ensures CleanLine(line) == Strip(Split(RStrip(line, '\n'), '#')[0])
  {
    SplitHead(RStrip(line, '\n'), '#');
  }

  /** Cleaning a line twice is cleaning it once. */
  lemma CleanLineIdempotent(line: string)
    ensures CleanLine(CleanLine(line)) == CleanLine(line)
  {
    var r := CleanLine(line);
    assert |r| == 0 || r[|r| - 1] != '\n' by { assert IsSpace('\n'); }
    var t := RStrip(r, '\n');
    assert t == r;
    assert '#' !in t;
    StripStripped(r);
  }
}
