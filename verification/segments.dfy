/** Seven-segment search (day 8). Each input line holds ten scrambled
    digit patterns and four output values, split at '|'. The first part
    counts the output values that can only be a 1, 4, 7 or 8, which are
    the ones lighting 2, 4, 3 or 7 segments. */
module Segments {
  import opened Arith
  import opened Tokenize

  /** One input line: its patterns and its output values. */
  datatype Entry = Entry(patterns: seq<string>, output: seq<string>)

  // ---------------------------------------------------------------------
  // Reading

  /** `std::string::npos`, the largest `size_t`. */
  const Npos: nat := Word - 1

  /** `find(c)`: the first position of `c`, or `npos`. A string is
      shorter than `npos`. */
  function Find(s: string, c: char): (r: nat)
    requires |s| < Npos
    ensures r == Npos || (r < |s| && s[r] == c)
    ensures r == Npos <==> c !in s
    ensures forall i :: 0 <= i < |s| && i < r ==> s[i] != c
  {
    if s == [] then Npos
    else if s[0] == c then 0
    else
      var r := Find(s[1..], c);
      if r == Npos then Npos else r + 1
  }

  /** `substr(pos, count)`: at most `count` characters from `pos`. The
      source never passes a `pos` past the end, so the throwing path is
      not reached. */
  function Substr(s: string, pos: nat, count: nat): (r: string)
    requires pos <= |s|
    ensures r == s[pos..Min(pos + count, |s|)]
  {
    s[pos..Min(pos + count, |s|)]
  }

  /** The body of `read_data`'s loop for a non-empty line: the text before
      the first '|' gives the patterns and the text after it the outputs.
      Without a '|', `npos + 1` wraps round to 0 and both halves are the
      whole line. */
  function ParseLine(line: string): Entry
    requires |line| < Npos
  {
    var pos := Find(line, '|');
    var after := (pos + 1) % Word;
    Entry(SplitStr(Substr(line, 0, pos), DefaultDelims),
          SplitStr(Substr(line, after, Npos), DefaultDelims))
  }

  lemma FindAt(s: string, c: char, k: nat)
    requires |s| < Npos && k < |s| && s[k] == c
    requires forall i :: 0 <= i < k ==> s[i] != c
    ensures Find(s, c) == k
  {
  }

  /** A line with a '|' splits at its first one. */
  lemma ParseAtBar(a: string, b: string)
    requires '|' !in a && |a| + 1 + |b| < Npos
    ensures ParseLine(a + "|" + b) == Entry(SplitStr(a, DefaultDelims), SplitStr(b, DefaultDelims))
  {
    var line := a + "|" + b;
    var pos := |a|;
    FindAt(line, '|', pos);
    assert (pos + 1) % Word == pos + 1;
    assert Substr(line, 0, pos) == a;
    assert Substr(line, pos + 1, Npos) == b;
  }

  /** A line without '|' gives the same list twice. */
  lemma ParseWithoutBar(line: string)
    requires '|' !in line && |line| < Npos
    ensures ParseLine(line) == Entry(SplitStr(line, DefaultDelims), SplitStr(line, DefaultDelims))
  {
    assert (Npos + 1) % Word == 0;
    assert Substr(line, 0, Npos) == line;
  }

  /** A word the splitter keeps whole. */
  predicate Plain(w: string) {
    |w| > 0 && NoSep(w, InSet(DefaultDelims)) && '|' !in w
  }

  /** The input format, patterns and outputs joined by spaces around a
      '|'. */
  function ShowLine(e: Entry): string {
    Join(e.patterns, ' ') + " | " + Join(e.output, ' ')
  }

  lemma {:induction false} JoinWithoutBar(words: seq<string>)
    requires forall i :: 0 <= i < |words| ==> Plain(words[i])
    ensures '|' !in Join(words, ' ')
    decreases |words|
  {
    if |words| > 1 {
      JoinWithoutBar(words[1..]);
    }
  }

  /** Reading a shown line gives the entry back. */
  lemma {:induction false} ParseOfShow(e: Entry)
    requires forall i :: 0 <= i < |e.patterns| ==> Plain(e.patterns[i])
    requires forall i :: 0 <= i < |e.output| ==> Plain(e.output[i])
    requires |ShowLine(e)| < Npos
    ensures ParseLine(ShowLine(e)) == e
  {
    var left, right := Join(e.patterns, ' '), Join(e.output, ' ');
    JoinWithoutBar(e.patterns);
    assert ShowLine(e) == (left + " ") + "|" + (" " + right);
    ParseAtBar(left + " ", " " + right);
    SplitBeforeSpace(e.patterns);
    SplitAfterSpace(e.output);
  }

  /** The words before the bar, with the space that ends them. */
  lemma {:induction false} SplitBeforeSpace(words: seq<string>)
    requires forall i :: 0 <= i < |words| ==> Plain(words[i])
    ensures SplitStr(Join(words, ' ') + " ", DefaultDelims) == words
  {
    var sep := InSet(DefaultDelims);
    var joined := Join(words, ' ');
    TokensOfJoin(words, ' ', sep);
    TokensSeparated(joined, ' ', [], sep);
    TokensOfSeparators([], sep);
    assert joined + " " == joined + [' '] + [];
    assert words + [] == words;
  }

  /** The words after the bar, with the space that starts them. */
  lemma {:induction false} SplitAfterSpace(words: seq<string>)
    requires forall i :: 0 <= i < |words| ==> Plain(words[i])
    ensures SplitStr(" " + Join(words, ' '), DefaultDelims) == words
  {
    var sep := InSet(DefaultDelims);
    var joined := Join(words, ' ');
    TokensOfJoin(words, ' ', sep);
    TokensSeparated([], ' ', joined, sep);
    TokensOfSeparators([], sep);
    assert " " + joined == [] + [' '] + joined;
    assert [] + words == words;
  }

  /** `read_data`: every non-empty line, parsed. */
  function ReadData(lines: seq<string>): (data: seq<Entry>)
    requires forall i :: 0 <= i < |lines| ==> |lines[i]| < Npos
    ensures |data| <= |lines|
  {
    if lines == [] then []
    else (if lines[0] == [] then [] else [ParseLine(lines[0])]) + ReadData(lines[1..])
  }

  /** Without blank lines every line gives one entry, in order; blank
      lines give none. */
  lemma {:induction false} ReadDataLines(lines: seq<string>)
    requires forall i :: 0 <= i < |lines| ==> |lines[i]| < Npos
    ensures (forall i :: 0 <= i < |lines| ==> lines[i] != []) ==>
      |ReadData(lines)| == |lines| && forall i :: 0 <= i < |lines| ==> ReadData(lines)[i] == ParseLine(lines[i])
    ensures (forall i :: 0 <= i < |lines| ==> lines[i] == []) ==> ReadData(lines) == []
    decreases |lines|
  {
    if lines != [] {
      ReadDataLines(lines[1..]);
    }
  }

  // ---------------------------------------------------------------------
  // Part 1

  /** A value of 2, 3, 4 or 7 segments: a 1, 7, 4 or 8. */
  predicate Unique(value: string) {
    |value| == 2 || |value| == 3 || |value| == 4 || |value| == 7
  }

  /** The unique values among one line's outputs. */
  function CountUnique(output: seq<string>): nat {
    if output == [] then 0
    else (if Unique(output[0]) then 1 else 0) + CountUnique(output[1..])
  }

  /** The count over every line. */
  function Total(data: seq<Entry>): nat {
    if data == [] then 0 else CountUnique(data[0].output) + Total(data[1..])
  }

  /** `part1`: the nested loops over the lines and their outputs. */
  method Part1(data: seq<Entry>) returns (result: nat)
    ensures result == Total(data)
  {
    result := 0;
    var i := |data|;
    while i > 0
      invariant 0 <= i <= |data|
      invariant result == Total(data[i..])
    {
      i := i - 1;
      var output := data[i].output;
      var count := 0;
      var k := |output|;
      while k > 0
        invariant 0 <= k <= |output|
        invariant count == CountUnique(output[k..])
      {
        k := k - 1;
        assert output[k..][1..] == output[k + 1..];
        if Unique(output[k]) {
          count := count + 1;
        }
      }
      assert data[i..][1..] == data[i + 1..];
      result := result + count;
    }
    assert data[0..] == data;
  }

  /** The indices, from `k` on, of the unique values: an independent
      count. */
  function UniqueFrom(output: seq<string>, k: nat): set<nat> {
    set i: nat | k <= i < |output| && Unique(output[i])
  }

  lemma {:induction false} CountUniqueIsIndices(output: seq<string>, k: nat)
    requires k <= |output|
    ensures CountUnique(output[k..]) == |UniqueFrom(output, k)|
    decreases |output| - k
  {
    if k == |output| {
      assert UniqueFrom(output, k) == {};
    } else {
      CountUniqueIsIndices(output, k + 1);
      assert output[k..][1..] == output[k + 1..];
      if Unique(output[k]) {
        assert UniqueFrom(output, k) == {k} + UniqueFrom(output, k + 1);
      } else {
        assert UniqueFrom(output, k) == UniqueFrom(output, k + 1);
      }
    }
  }

  /** The count is additive over lines, at most the number of outputs,
      and blind to the patterns. */
  lemma {:induction false} TotalProperties(a: seq<Entry>, b: seq<Entry>)
    ensures Total(a + b) == Total(a) + Total(b)
    ensures Total(a) <= Outputs(a)
    decreases |a|
  {
    if a == [] {
      assert a + b == b;
    } else {
      assert (a + b)[0] == a[0];
      assert (a + b)[1..] == a[1..] + b;
      TotalProperties(a[1..], b);
      CountUniqueBound(a[0].output);
    }
  }

  function Outputs(data: seq<Entry>): nat {
    if data == [] then 0 else |data[0].output| + Outputs(data[1..])
  }

  lemma {:induction false} CountUniqueBound(output: seq<string>)
    ensures CountUnique(output) <= |output|
    decreases |output|
  {
    if output != [] {
      CountUniqueBound(output[1..]);
    }
  }

  /** Two inputs with the same outputs line by line have the same count,
      whatever their patterns. */
  lemma {:induction false} TotalIgnoresPatterns(a: seq<Entry>, b: seq<Entry>)
    requires |a| == |b| && forall i :: 0 <= i < |a| ==> a[i].output == b[i].output
    ensures Total(a) == Total(b)
    decreases |a|
  {
    if a != [] {
      TotalIgnoresPatterns(a[1..], b[1..]);
    }
  }
}
