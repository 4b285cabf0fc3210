/** The string tokenizers shared by the solvers: the `strtok` family of
    `split.h` (days 6 and 13), the `find_first_of` family of day 17's
    `split.h`, the number-run scanner behind `point_t::from_string`, and
    the C library conversions they call (`atoi`, `stol`, `stoi`). */
module Tokenize {
  import opened Wrappers

  predicate IsDigit(c: char) {
    '0' <= c <= '9'
  }

  /** The separator test of a delimiter string, as `strtok` and
      `find_first_of` use it. */
  function InSet(delims: string): char -> bool {
    c => c in delims
  }

  /** The default delimiters of the splitters. */
  const DefaultDelims: string := ", =;"

  /** The default delimiters of day 17's `split_int`, which adds '.'. */
  const StoiDelims: string := ", =;."

  predicate NoSep(t: string, sep: char -> bool) {
    forall i :: 0 <= i < |t| ==> !sep(t[i])
  }

  /** Length of the leading run of non-separators: the offset that
      `find_first_of` reports, with |s| standing for `npos`. */
  function TokenLen(s: string, sep: char -> bool): (n: nat)
    ensures n <= |s|
    ensures forall i :: 0 <= i < n ==> !sep(s[i])
    ensures n < |s| ==> sep(s[n])
  {
    if s == [] || sep(s[0]) then 0 else 1 + TokenLen(s[1..], sep)
  }

  lemma {:induction false} TokenLenIs(s: string, sep: char -> bool, n: nat)
    requires n <= |s| && (forall i :: 0 <= i < n ==> !sep(s[i]))
    requires n < |s| ==> sep(s[n])
    ensures TokenLen(s, sep) == n
  {
    if n > 0 {
      TokenLenIs(s[1..], sep, n - 1);
    }
  }

  /** Length of the leading run of separators: the offset that
      `find_first_not_of` reports. */
  function SepLen(s: string, sep: char -> bool): (n: nat)
    ensures n <= |s|
    ensures forall i :: 0 <= i < n ==> sep(s[i])
    ensures n < |s| ==> !sep(s[n])
  {
    if s == [] || !sep(s[0]) then 0 else 1 + SepLen(s[1..], sep)
  }

  lemma {:induction false} SepLenIs(s: string, sep: char -> bool, n: nat)
    requires n <= |s| && (forall i :: 0 <= i < n ==> sep(s[i]))
    requires n < |s| ==> !sep(s[n])
    ensures SepLen(s, sep) == n
  {
    if n > 0 {
      SepLenIs(s[1..], sep, n - 1);
    }
  }

  /** The characters of `s` that are not separators, in order. */
  function Strip(s: string, sep: char -> bool): string {
    if s == [] then [] else (if sep(s[0]) then [] else [s[0]]) + Strip(s[1..], sep)
  }

  lemma {:induction false} StripAppend(a: string, b: string, sep: char -> bool)
    ensures Strip(a + b, sep) == Strip(a, sep) + Strip(b, sep)
    decreases |a|
  {
    if a == [] {
      assert a + b == b;
    } else {
      assert (a + b)[1..] == a[1..] + b;
      StripAppend(a[1..], b, sep);
    }
  }

  lemma {:induction false} StripNoSep(t: string, sep: char -> bool)
    requires NoSep(t, sep)
    ensures Strip(t, sep) == t
    decreases |t|
  {
    if t != [] {
      StripNoSep(t[1..], sep);
    }
  }

  function Concat(ts: seq<string>): string {
    if ts == [] then [] else ts[0] + Concat(ts[1..])
  }

  /** The `strtok` loop: the maximal non-empty runs of non-separators, in
      order. Their concatenation is the input with its separators removed. */
  function Tokens(s: string, sep: char -> bool): (tokens: seq<string>)
    ensures forall i :: 0 <= i < |tokens| ==> |tokens[i]| > 0 && NoSep(tokens[i], sep)
    ensures Concat(tokens) == Strip(s, sep)
    decreases |s|
  {
    if s == [] then []
    else if sep(s[0]) then Tokens(s[1..], sep)
    else
      var n := TokenLen(s, sep);
      assert s == s[..n] + s[n..];
      StripAppend(s[..n], s[n..], sep);
      StripNoSep(s[..n], sep);
      [s[..n]] + Tokens(s[n..], sep)
  }

  /** A string of separators only (in particular the empty string) has no
      tokens. */
  lemma {:induction false} TokensOfSeparators(s: string, sep: char -> bool)
    requires forall i :: 0 <= i < |s| ==> sep(s[i])
    ensures Tokens(s, sep) == []
    decreases |s|
  {
    if s != [] {
      TokensOfSeparators(s[1..], sep);
    }
  }

  /** A separator cuts the input in two independently tokenized halves. */
  lemma {:induction false} TokensSeparated(a: string, c: char, b: string, sep: char -> bool)
    requires sep(c)
    ensures Tokens(a + [c] + b, sep) == Tokens(a, sep) + Tokens(b, sep)
    decreases |a|
  {
    var s := a + [c] + b;
    if a == [] {
      assert s[1..] == b;
    } else if sep(a[0]) {
      assert s[1..] == a[1..] + [c] + b;
      TokensSeparated(a[1..], c, b, sep);
    } else {
      var m := TokenLen(a, sep);
      TokenLenIs(s, sep, m);
      assert s[..m] == a[..m];
      assert s[m..] == a[m..] + [c] + b;
      TokensSeparated(a[m..], c, b, sep);
    }
  }

  /** A non-empty separator-free word is its own single token. */
  lemma TokensOfWord(w: string, sep: char -> bool)
    requires |w| > 0 && NoSep(w, sep)
    ensures Tokens(w, sep) == [w]
  {
    TokenLenIs(w, sep, |w|);
    assert w[|w|..] == [];
    assert w[..|w|] == w;
  }

  /** `words` joined with a single `sep` character between neighbours. */
  function Join(words: seq<string>, sep: char): string {
    if words == [] then []
    else if |words| == 1 then words[0]
    else words[0] + [sep] + Join(words[1..], sep)
  }

  /** Tokenizing undoes joining, for non-empty separator-free words. */
  lemma {:induction false} TokensOfJoin(words: seq<string>, c: char, sep: char -> bool)
    requires sep(c)
    requires forall i :: 0 <= i < |words| ==> |words[i]| > 0 && NoSep(words[i], sep)
    ensures Tokens(Join(words, c), sep) == words
    decreases |words|
  {
    if words == [] {
    } else if |words| == 1 {
      TokensOfWord(words[0], sep);
    } else {
      TokensOfJoin(words[1..], c, sep);
      TokensSeparated(words[0], c, Join(words[1..], c), sep);
      TokensOfWord(words[0], sep);
    }
  }

  /** `split_str`: the `strtok` tokens of `s` for the delimiter string. */
  function SplitStr(s: string, delims: string): (tokens: seq<string>)
    ensures forall i :: 0 <= i < |tokens| ==>
      |tokens[i]| > 0 && forall j :: 0 <= j < |tokens[i]| ==> tokens[i][j] !in delims
    ensures Concat(tokens) == Strip(s, InSet(delims))
  {
    Tokens(s, InSet(delims))
  }

  /** Length of the leading run of decimal digits. */
  function DigitLen(s: string): (n: nat)
    ensures n <= |s|
    ensures forall i :: 0 <= i < n ==> IsDigit(s[i])
    ensures n < |s| ==> !IsDigit(s[n])
  {
    if s == [] || !IsDigit(s[0]) then 0 else 1 + DigitLen(s[1..])
  }

  lemma {:induction false} DigitLenIs(s: string, n: nat)
    requires n <= |s| && (forall i :: 0 <= i < n ==> IsDigit(s[i]))
    requires n < |s| ==> !IsDigit(s[n])
    ensures DigitLen(s) == n
  {
    if n > 0 {
      DigitLenIs(s[1..], n - 1);
    }
  }

  predicate AllDigits(d: string) {
    forall i :: 0 <= i < |d| ==> IsDigit(d[i])
  }

  /** The decimal value of a digit string. */
  function DigitsValue(d: string): nat
    requires AllDigits(d)
  {
    if d == [] then 0 else 10 * DigitsValue(d[..|d| - 1]) + (d[|d| - 1] as int - '0' as int)
  }

  /** Decimal rendering of a natural number, without leading zeros. */
  function ShowNat(n: nat): (d: string)
    ensures |d| > 0 && AllDigits(d)
    ensures DigitsValue(d) == n
  {
    if n < 10 then
      var d := [('0' as int + n) as char];
      assert d[..0] == [];
      d
    else
      var d := ShowNat(n / 10) + [('0' as int + n % 10) as char];
      assert d[..|d| - 1] == ShowNat(n / 10);
      d
  }

  /** Decimal rendering of an integer, with a leading '-' when negative. */
  function ShowInt(n: int): (s: string)
    ensures StartsNumber(s) && NumberChars(s)
  {
    if n < 0 then "-" + ShowNat(-n) else ShowNat(n)
  }

  function ShowInts(xs: seq<int>): (ss: seq<string>)
    ensures |ss| == |xs|
    ensures forall i :: 0 <= i < |xs| ==> ss[i] == ShowInt(xs[i])
  {
    if xs == [] then [] else [ShowInt(xs[0])] + ShowInts(xs[1..])
  }

  predicate StartsNumber(t: string) {
    |t| > 0 && (IsDigit(t[0]) || t[0] == '-')
  }

  predicate NumberChars(t: string) {
    forall i :: 0 <= i < |t| ==> IsDigit(t[i]) || t[i] == '-'
  }

  /** `std::stol` (and `std::stoi`) on text that starts with a digit or a
      minus sign: an optional '-' and the digits that follow it; `None`
      stands for the exception thrown when no digit follows the sign. */
  function Stol(t: string): (r: Option<int>)
    requires StartsNumber(t)
    ensures r.None? <==> t[0] == '-' && (|t| == 1 || !IsDigit(t[1]))
    ensures r.Some? && t[0] == '-' ==> r.value <= 0
    ensures r.Some? && t[0] != '-' ==> r.value >= 0
  {
    if t[0] == '-' then
      var n := DigitLen(t[1..]);
      if n == 0 then None else Some(-(DigitsValue(t[1..][..n]) as int))
    else
      Some(DigitsValue(t[..DigitLen(t)]))
  }

  /** `atoi` on the same text: the same value, but 0 where `stol` throws. */
  function Atoi(t: string): (r: int)
    requires StartsNumber(t)
    ensures Stol(t).Some? ==> r == Stol(t).value
    ensures Stol(t).None? ==> r == 0
  {
    if t[0] == '-' then -(DigitsValue(t[1..][..DigitLen(t[1..])]) as int)
    else DigitsValue(t[..DigitLen(t)])
  }

  /** Parsing reads back what `ShowInt` wrote, whatever non-digit text
      follows it. */
  lemma {:induction false} StolOfShow(n: int, rest: string)
    requires rest == [] || !IsDigit(rest[0])
    ensures Stol(ShowInt(n) + rest) == Some(n)
    ensures Atoi(ShowInt(n) + rest) == n
  {
    if n < 0 {
      StolOfShowNegative(-n, rest);
      assert ShowInt(n) + rest == "-" + ShowNat(-n) + rest;
    } else {
      StolOfShowNat(n, rest);
    }
  }

  lemma {:induction false} StolOfShowNat(n: nat, rest: string)
    requires rest == [] || !IsDigit(rest[0])
    ensures Stol(ShowNat(n) + rest) == Some(n)
  {
    var d := ShowNat(n);
    var t := d + rest;
    DigitLenIs(t, |d|);
    assert t[..|d|] == d;
  }

  lemma {:induction false} StolOfShowNegative(n: nat, rest: string)
    requires n > 0 && (rest == [] || !IsDigit(rest[0]))
    ensures Stol("-" + ShowNat(n) + rest) == Some(-(n as int))
  {
    var d := ShowNat(n);
    var t := "-" + d + rest;
    assert t[0] == '-' && t[1..] == d + rest;
    DigitLenIs(d + rest, |d|);
    assert (d + rest)[..|d|] == d;
  }

  /** `split_int`: the tokens that start with a digit or '-', through `atoi`. */
  function AtoiTokens(tokens: seq<string>): (r: seq<int>)
    ensures |r| <= |tokens|
  {
    if tokens == [] then []
    else (if StartsNumber(tokens[0]) then [Atoi(tokens[0])] else []) + AtoiTokens(tokens[1..])
  }

  function SplitInt(s: string, delims: string): (r: seq<int>)
    ensures |r| <= |SplitStr(s, delims)|
  {
    AtoiTokens(SplitStr(s, delims))
  }

  /** `split_size_t`: the tokens that start with a digit, through `atoi`. */
  function DigitTokens(tokens: seq<string>): (r: seq<nat>)
    ensures |r| <= |tokens|
  {
    if tokens == [] then []
    else
      (if |tokens[0]| > 0 && IsDigit(tokens[0][0]) then [Atoi(tokens[0])] else [])
      + DigitTokens(tokens[1..])
  }

  function SplitSizeT(s: string, delims: string): (r: seq<nat>)
    ensures |r| <= |SplitStr(s, delims)|
  {
    DigitTokens(SplitStr(s, delims))
  }

  lemma ShownWordsAreTokens(xs: seq<int>, delims: string)
    requires forall c :: c in delims ==> !IsDigit(c) && c != '-'
    ensures forall i :: 0 <= i < |ShowInts(xs)| ==>
      |ShowInts(xs)[i]| > 0 && NoSep(ShowInts(xs)[i], InSet(delims))
  {
    var ss := ShowInts(xs);
    forall i | 0 <= i < |ss| ensures |ss[i]| > 0 && NoSep(ss[i], InSet(delims)) {
      assert StartsNumber(ss[i]) && NumberChars(ss[i]);
    }
  }

  lemma {:induction false} AtoiTokensOfShow(xs: seq<int>)
    ensures AtoiTokens(ShowInts(xs)) == xs
    decreases |xs|
  {
    if xs != [] {
      StolOfShow(xs[0], "");
      assert ShowInt(xs[0]) + "" == ShowInt(xs[0]);
      assert ShowInts(xs)[1..] == ShowInts(xs[1..]);
      AtoiTokensOfShow(xs[1..]);
    }
  }

  /** Comma-joined integers read back through `split_int`. */
  lemma SplitIntOfJoin(xs: seq<int>)
    ensures SplitInt(Join(ShowInts(xs), ','), DefaultDelims) == xs
  {
    ShownWordsAreTokens(xs, DefaultDelims);
    TokensOfJoin(ShowInts(xs), ',', InSet(DefaultDelims));
    AtoiTokensOfShow(xs);
  }

  function ShowNats(xs: seq<nat>): (ss: seq<string>)
    ensures |ss| == |xs|
    ensures forall i :: 0 <= i < |xs| ==> ss[i] == ShowNat(xs[i])
  {
    if xs == [] then [] else [ShowNat(xs[0])] + ShowNats(xs[1..])
  }

  lemma {:induction false} DigitTokensOfShow(xs: seq<nat>)
    ensures DigitTokens(ShowNats(xs)) == xs
    decreases |xs|
  {
    if xs != [] {
      StolOfShow(xs[0], "");
      assert ShowInt(xs[0]) + "" == ShowNat(xs[0]);
      assert ShowNats(xs)[1..] == ShowNats(xs[1..]);
      DigitTokensOfShow(xs[1..]);
    }
  }

  /** Comma-joined naturals read back through `split_size_t`. */
  lemma SplitSizeTOfJoin(xs: seq<nat>)
    ensures SplitSizeT(Join(ShowNats(xs), ','), DefaultDelims) == xs
  {
    var ss := ShowNats(xs);
    forall i | 0 <= i < |ss| ensures |ss[i]| > 0 && NoSep(ss[i], InSet(DefaultDelims)) {
      assert AllDigits(ss[i]);
    }
    TokensOfJoin(ss, ',', InSet(DefaultDelims));
    DigitTokensOfShow(xs);
  }

  /** Day 17's `split` loop, reading the string from a token's start: the
      text up to the next delimiter, then the rest. */
  function SplitFrom(t: string, sep: char -> bool): seq<string>
    decreases |t|, 1
  {
    var n := TokenLen(t, sep);
    [t[..n]] + SplitRest(t[n..], sep)
  }

  /** After a token: stop at the end of the string, or skip the delimiters
      and start the next token; a trailing delimiter run ends the loop. */
  function SplitRest(t: string, sep: char -> bool): seq<string>
    requires t == [] || sep(t[0])
    decreases |t|, 0
  {
    if t == [] then []
    else
      var k := SepLen(t, sep);
      if k == |t| then [] else SplitFrom(t[k..], sep)
  }

  lemma {:induction false} TokensSkipSeparators(t: string, sep: char -> bool, k: nat)
    requires k <= |t| && forall i :: 0 <= i < k ==> sep(t[i])
    ensures Tokens(t, sep) == Tokens(t[k..], sep)
    decreases k
  {
    if k > 0 {
      assert t[1..][k - 1..] == t[k..];
      TokensSkipSeparators(t[1..], sep, k - 1);
    }
  }

  lemma {:induction false} SplitFromIsTokens(t: string, sep: char -> bool)
    requires t != [] && !sep(t[0])
    ensures SplitFrom(t, sep) == Tokens(t, sep)
    decreases |t|, 1
  {
    var n := TokenLen(t, sep);
    SplitRestIsTokens(t[n..], sep);
  }

  lemma {:induction false} SplitRestIsTokens(t: string, sep: char -> bool)
    requires t == [] || sep(t[0])
    ensures SplitRest(t, sep) == Tokens(t, sep)
    decreases |t|, 0
  {
    if t != [] {
      var k := SepLen(t, sep);
      TokensSkipSeparators(t, sep, k);
      if k == |t| {
        assert t[k..] == [];
      } else {
        SplitFromIsTokens(t[k..], sep);
      }
    }
  }

  /** Day 17's `split`: the (possibly empty) text before the first
      delimiter, then the maximal non-delimiter runs of the rest, so there
      is never a trailing empty token and `split("")` is `[""]`. */
  function Split(s: string, delims: string): (r: seq<string>)
    ensures var n := TokenLen(s, InSet(delims));
      r == [s[..n]] + SplitStr(s[n..], delims)
  {
    var n := TokenLen(s, InSet(delims));
    SplitRestIsTokens(s[n..], InSet(delims));
    SplitFrom(s, InSet(delims))
  }

  /** `split` and `split_str` agree unless the input is empty or starts
      with a delimiter, where `split` adds a leading empty token. */
  lemma SplitVersusSplitStr(s: string, delims: string)
    ensures s != [] && s[0] !in delims ==> Split(s, delims) == SplitStr(s, delims)
    ensures (s == [] || s[0] in delims) ==> Split(s, delims) == [""] + SplitStr(s, delims)
  {
    if s != [] && s[0] !in delims {
      SplitFromIsTokens(s, InSet(delims));
    } else {
      assert s[..0] == "" && s[0..] == s;
    }
  }

  /** Day 17's `split_int` loop: at each token start whose character is a
      digit or '-', `stoi` of the whole remaining text; `None` when a
      conversion throws. */
  function StoiFrom(t: string, sep: char -> bool): Option<seq<int>>
    decreases |t|, 1
  {
    var n := TokenLen(t, sep);
    var head := if StartsNumber(t) then Stol(t) else None;
    var rest := StoiRest(t[n..], sep);
    if StartsNumber(t) && head.None? then None
    else if rest.None? then None
    else Some((if StartsNumber(t) then [head.value] else []) + rest.value)
  }

  function StoiRest(t: string, sep: char -> bool): Option<seq<int>>
    requires t == [] || sep(t[0])
    decreases |t|, 0
  {
    if t == [] then Some([])
    else
      var k := SepLen(t, sep);
      if k == |t| then Some([]) else StoiFrom(t[k..], sep)
  }

  function SplitIntStoi(s: string, delims: string): (r: Option<seq<int>>)
    ensures r.Some? && StartsNumber(s) ==> |r.value| > 0 && Some(r.value[0]) == Stol(s)
  {
    StoiFrom(s, InSet(delims))
  }

  /** A joined list of two or more words is its head, a separator and the
      joined rest. */
  lemma JoinCons(words: seq<string>, c: char)
    requires |words| >= 2
    ensures Join(words, c) == words[0] + [c] + Join(words[1..], c)
  {
  }

  /** A joined non-empty list of words starts with its first word's first
      character. */
  lemma JoinStart(words: seq<string>, c: char)
    requires |words| >= 1 && |words[0]| > 0
    ensures |Join(words, c)| > 0 && Join(words, c)[0] == words[0][0]
  {
  }

  /** One step of `StoiFrom` over a number token `w` followed by a
      delimiter-led rest. */
  lemma StoiFromStep(w: string, rest: string, sep: char -> bool, v: int)
    requires StartsNumber(w) && NoSep(w, sep)
    requires rest == [] || sep(rest[0])
    requires Stol(w + rest) == Some(v)
    ensures StoiFrom(w + rest, sep) ==
      if StoiRest(rest, sep).None? then None else Some([v] + StoiRest(rest, sep).value)
  {
    var t := w + rest;
    TokenLenIs(t, sep, |w|);
    assert t[|w|..] == rest;
  }

  /** After a single delimiter, the next token starts. */
  lemma StoiRestStep(rest: string, sep: char -> bool)
    requires |rest| >= 2 && sep(rest[0]) && !sep(rest[1])
    ensures StoiRest(rest, sep) == StoiFrom(rest[1..], sep)
  {
    SepLenIs(rest, sep, 1);
  }

  lemma NumberWordNoSep(w: string)
    requires NumberChars(w)
    ensures NoSep(w, InSet(StoiDelims))
  {
    forall i | 0 <= i < |w| ensures !InSet(StoiDelims)(w[i]) {
      assert IsDigit(w[i]) || w[i] == '-';
    }
  }

  /** `StoiFrom` over a number token, one delimiter and a following token
      reads the number and continues at the following token. */
  lemma StoiFromSep(w: string, u: string, sep: char -> bool, v: int)
    requires StartsNumber(w) && NoSep(w, sep) && sep(',')
    requires |u| > 0 && !sep(u[0])
    requires Stol(w + ([','] + u)) == Some(v)
    ensures var r := StoiFrom(u, sep);
      StoiFrom(w + ([','] + u), sep) == if r.None? then None else Some([v] + r.value)
  {
    var rest := [','] + u;
    StoiFromStep(w, rest, sep, v);
    StoiRestStep(rest, sep);
    assert rest[1..] == u;
  }

  lemma NotStoiDelim(c: char)
    requires IsDigit(c) || c == '-'
    ensures !InSet(StoiDelims)(c)
  {
  }

  lemma JoinShowCons(xs: seq<int>)
    requires |xs| >= 2
    ensures Join(ShowInts(xs), ',') == ShowInt(xs[0]) + ([','] + Join(ShowInts(xs[1..]), ','))
  {
    assert ShowInts(xs)[1..] == ShowInts(xs[1..]);
    JoinCons(ShowInts(xs), ',');
  }

  lemma JoinShowStart(xs: seq<int>)
    requires |xs| >= 1
    ensures var t := Join(ShowInts(xs), ',');
      |t| > 0 && (IsDigit(t[0]) || t[0] == '-')
  {
    JoinStart(ShowInts(xs), ',');
    assert StartsNumber(ShowInts(xs)[0]);
  }

  /** `StoiFrom` over a joined list of two or more numbers reads the first
      and continues with the rest. */
  lemma StoiFromCons(xs: seq<int>)
    requires |xs| >= 2
    ensures var r := StoiFrom(Join(ShowInts(xs[1..]), ','), InSet(StoiDelims));
      StoiFrom(Join(ShowInts(xs), ','), InSet(StoiDelims))
        == if r.None? then None else Some([xs[0]] + r.value)
  {
    var w := ShowInt(xs[0]);
    var u := Join(ShowInts(xs[1..]), ',');
    NumberWordNoSep(w);
    JoinShowCons(xs);
    JoinShowStart(xs[1..]);
    NotStoiDelim(u[0]);
    StolOfShow(xs[0], [','] + u);
    StoiFromSep(w, u, InSet(StoiDelims), xs[0]);
  }

  lemma StoiFromOfJoinEmpty()
    ensures StoiFrom(Join(ShowInts([]), ','), InSet(StoiDelims)) == Some([])
  {
    var sep := InSet(StoiDelims);
    var t: string := [];
    assert Join(ShowInts([]), ',') == t;
    assert !StartsNumber(t) && TokenLen(t, sep) == 0 && t[0..] == t;
    assert StoiRest(t, sep) == Some([]);
    var none: seq<int> := [];
    assert StoiFrom(t, sep) == Some(none + none) && none + none == none;
  }

  lemma {:induction false} StoiFromOfJoinSingle(x: int)
    ensures StoiFrom(Join(ShowInts([x]), ','), InSet(StoiDelims)) == Some([x])
  {
    var sep := InSet(StoiDelims);
    var w := ShowInt(x);
    NumberWordNoSep(w);
    assert ShowInts([x]) == [w];
    assert Join(ShowInts([x]), ',') == w + [];
    StolOfShow(x, []);
    StoiFromStep(w, [], sep, x);
    assert StoiRest([], sep) == Some([]);
    assert [x] + [] == [x];
  }

  lemma {:induction false} StoiFromOfJoin(xs: seq<int>)
    ensures StoiFrom(Join(ShowInts(xs), ','), InSet(StoiDelims)) == Some(xs)
    decreases |xs|
  {
    if xs == [] {
      StoiFromOfJoinEmpty();
    } else if |xs| == 1 {
      StoiFromOfJoinSingle(xs[0]);
      assert xs == [xs[0]];
    } else {
      StoiFromCons(xs);
      StoiFromOfJoin(xs[1..]);
      assert [xs[0]] + xs[1..] == xs;
    }
  }

  /** Comma-joined integers read back through day 17's `split_int`. */
  lemma SplitIntStoiOfJoin(xs: seq<int>)
    ensures SplitIntStoi(Join(ShowInts(xs), ','), StoiDelims) == Some(xs)
  {
    StoiFromOfJoin(xs);
  }

  /** The characters `from_string` collects into numbers. */
  predicate NotNumberChar(c: char) {
    !(IsDigit(c) || c == '-')
  }

  function ParseAll(runs: seq<string>): (r: Option<seq<int>>)
    requires forall i :: 0 <= i < |runs| ==> StartsNumber(runs[i])
    ensures r.Some? ==> |r.value| == |runs|
  {
    if runs == [] then Some([])
    else
      var head := Stol(runs[0]);
      var tail := ParseAll(runs[1..]);
      if head.None? || tail.None? then None else Some([head.value] + tail.value)
  }

  /** `split_numbers` of `point_t::from_string`: `stol` of each maximal run
      of "-0123456789" characters; `None` when one throws (a run starting
      with '-' not followed by a digit). Since the run ends at a character
      `stol` does not read, parsing the run is parsing the rest of the
      string from the run's start. */
  function NumbersOf(s: string): (r: Option<seq<int>>)
    ensures r.Some? ==> |r.value| == |Tokens(s, NotNumberChar)|
  {
    var runs := Tokens(s, NotNumberChar);
    assert forall i :: 0 <= i < |runs| ==> StartsNumber(runs[i]) by {
      forall i | 0 <= i < |runs| ensures StartsNumber(runs[i]) {
        assert !NotNumberChar(runs[i][0]);
      }
    }
    ParseAll(runs)
  }

  lemma {:induction false} ParseAllOfShow(xs: seq<int>)
    ensures ParseAll(ShowInts(xs)) == Some(xs)
    decreases |xs|
  {
    if xs != [] {
      var ss := ShowInts(xs);
      StolOfShow(xs[0], "");
      assert ShowInt(xs[0]) + "" == ShowInt(xs[0]);
      assert Stol(ss[0]) == Some(xs[0]);
      assert ss[1..] == ShowInts(xs[1..]);
      ParseAllOfShow(xs[1..]);
      assert [xs[0]] + xs[1..] == xs;
    }
  }

  /** Comma-joined integers read back through `from_string`'s scanner. */
  lemma NumbersOfJoin(xs: seq<int>)
    ensures NumbersOf(Join(ShowInts(xs), ',')) == Some(xs)
  {
    var ss := ShowInts(xs);
    forall i | 0 <= i < |ss| ensures |ss[i]| > 0 && NoSep(ss[i], NotNumberChar) {
      assert NumberChars(ss[i]);
    }
    TokensOfJoin(ss, ',', NotNumberChar);
    ParseAllOfShow(xs);
  }
}
