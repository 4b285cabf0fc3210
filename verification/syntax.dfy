/** Syntax scoring (day 10). A line of brackets is reduced by deleting
    adjacent matching pairs "()", "{}", "[]" and "<>" until none is left;
    the first closing bracket that survives is the first corrupted one and
    its table score is the line's score. The reduction is shown to agree
    with the usual left-to-right bracket stack. */
module Syntax {
  import opened Wrappers

  /** `open` followed by `close` is one of the four deletable pairs. */
  predicate Matches(open: char, close: char) {
    || (open == '(' && close == ')') || (open == '{' && close == '}')
    || (open == '[' && close == ']') || (open == '<' && close == '>')
  }

  /** One of the characters of ")}]>". */
  predicate IsCloser(c: char) {
    c == ')' || c == '}' || c == ']' || c == '>'
  }

  /** No `a` in `s` is directly followed by `b`. */
  predicate NoPair(s: string, a: char, b: char) {
    forall i :: 0 <= i < |s| - 1 ==> !(s[i] == a && s[i + 1] == b)
  }

  /** No two adjacent characters of `s` form a deletable pair. */
  predicate Reduced(s: string) {
    forall i :: 0 <= i < |s| - 1 ==> !Matches(s[i], s[i + 1])
  }

  /** `src.find(pattern)` for the two-character pattern `ab`: the first
      position where it occurs, or `None` for `npos`. */
  function Find(s: string, a: char, b: char): (r: Option<nat>)
    ensures r.None? <==> NoPair(s, a, b)
    ensures r.Some? ==> r.value + 1 < |s| && s[r.value] == a && s[r.value + 1] == b
    ensures r.Some? ==> NoPair(s[..r.value + 1], a, b)
  {
    if |s| < 2 then None
    else if s[0] == a && s[1] == b then Some(0)
    else match Find(s[1..], a, b)
      case None => None
      case Some(i) => Some(i + 1)
  }

  /** `reduce_pattern`: erase the first occurrence of `ab` until there is
      none; the result carries the number of characters removed. */
  function ReducePattern(s: string, a: char, b: char): (r: (string, nat))
    ensures |r.0| + r.1 == |s| && r.1 % 2 == 0
    ensures NoPair(r.0, a, b)
    ensures r.1 == 0 <==> NoPair(s, a, b)
    ensures r.1 == 0 ==> r.0 == s
    decreases |s|
  {
    match Find(s, a, b)
    case None => (s, 0)
    case Some(i) =>
      var t := ReducePattern(Erase(s, i), a, b);
      ErasedStep(s, a, b, i, t.0, t.1);
      (t.0, t.1 + 2)
  }

  /** `erase(i, 2)`. */
  function Erase(s: string, i: nat): (r: string)
    requires i + 1 < |s|
    ensures |r| == |s| - 2
  {
    s[..i] + s[i + 2..]
  }

  /** What one erasure adds to the reduction of the rest. */
  lemma {:induction false} ErasedStep(s: string, a: char, b: char, i: nat, rest: string, removed: nat)
    requires i + 1 < |s| && s[i] == a && s[i + 1] == b
    requires |rest| + removed == |s| - 2 && removed % 2 == 0
    ensures |rest| + (removed + 2) == |s| && (removed + 2) % 2 == 0
    ensures !NoPair(s, a, b)
  {
    assert removed + 2 == 2 * (removed / 2 + 1);
  }

  /** One pass of the `do` loop of `reduce_string`: each of the four pairs
      in turn, with the total number of characters removed. A pass that
      removes nothing found a reduced string. */
  function Round(s: string): (r: (string, nat))
    ensures |r.0| + r.1 == |s|
    ensures r.1 == 0 <==> Reduced(s)
    ensures r.1 == 0 ==> r.0 == s
  {
    var p1 := ReducePattern(s, '(', ')');
    var p2 := ReducePattern(p1.0, '{', '}');
    var p3 := ReducePattern(p2.0, '[', ']');
    var p4 := ReducePattern(p3.0, '<', '>');
    assert Reduced(s) ==> NoPair(s, '(', ')') && NoPair(s, '{', '}') && NoPair(s, '[', ']') && NoPair(s, '<', '>');
    (p4.0, p1.1 + p2.1 + p3.1 + p4.1)
  }

  /** Deleting pairs never changes the bracket stack. */
  lemma RoundStack(s: string)
    ensures Process([], Round(s).0) == Process([], s)
  {
    var p1 := ReducePattern(s, '(', ')');
    var p2 := ReducePattern(p1.0, '{', '}');
    var p3 := ReducePattern(p2.0, '[', ']');
    ReducePatternStack(s, '(', ')');
    ReducePatternStack(p1.0, '{', '}');
    ReducePatternStack(p2.0, '[', ']');
    ReducePatternStack(p3.0, '<', '>');
  }

  /** `reduce_string`: rounds repeat while a round removed something. */
  function ReduceString(s: string): (r: string)
    ensures Reduced(r) && |r| <= |s|
    decreases |s|
  {
    var round := Round(s);
    if round.1 > 0 then ReduceString(round.0) else round.0
  }

  /** A reduced line comes back unchanged, so reducing twice is reducing once. */
  lemma ReduceStringIdempotent(s: string)
    ensures Reduced(s) ==> ReduceString(s) == s
    ensures ReduceString(ReduceString(s)) == ReduceString(s)
  {
  }

  // ---------------------------------------------------------------------
  // Reference: the bracket stack

  /** Read `s` left to right onto `stack`: a character that closes the top of
      the stack pops it, anything else is pushed. */
  function Process(stack: string, s: string): string
    decreases |s|
  {
    if s == [] then stack
    else if |stack| > 0 && Matches(stack[|stack| - 1], s[0]) then Process(stack[..|stack| - 1], s[1..])
    else Process(stack + [s[0]], s[1..])
  }

  lemma {:induction false} ProcessAppend(stack: string, u: string, w: string)
    ensures Process(stack, u + w) == Process(Process(stack, u), w)
    decreases |u|
  {
    if u != [] {
      assert u + w != [] && (u + w)[0] == u[0] && (u + w)[1..] == u[1..] + w;
      if |stack| > 0 && Matches(stack[|stack| - 1], u[0]) {
        ProcessAppend(stack[..|stack| - 1], u[1..], w);
      } else {
        ProcessAppend(stack + [u[0]], u[1..], w);
      }
    } else {
      assert u + w == w;
    }
  }

  /** A deletable pair read onto any stack leaves it as it was. */
  lemma ProcessPair(stack: string, a: char, b: char, v: string)
    requires Matches(a, b)
    ensures Process(stack, [a, b] + v) == Process(stack, v)
  {
    var s := [a, b] + v;
    assert s[0] == a && s[1..] == [b] + v;
    assert !(|stack| > 0 && Matches(stack[|stack| - 1], a));
    var t := stack + [a];
    assert ([b] + v)[0] == b && ([b] + v)[1..] == v;
    assert t[..|t| - 1] == stack;
  }

  /** Deleting an adjacent matching pair anywhere does not change the stack. */
  lemma {:induction false} DeletePair(s: string, i: nat)
    requires i + 1 < |s| && Matches(s[i], s[i + 1])
    ensures Process([], Erase(s, i)) == Process([], s)
  {
    var u, pair, v := s[..i], [s[i], s[i + 1]], s[i + 2..];
    assert s == u + (pair + v);
    assert Erase(s, i) == u + v;
    ProcessAppend([], u, pair + v);
    ProcessPair(Process([], u), s[i], s[i + 1], v);
    ProcessAppend([], u, v);
  }

  lemma {:induction false} ReducePatternStack(s: string, a: char, b: char)
    requires Matches(a, b)
    ensures Process([], ReducePattern(s, a, b).0) == Process([], s)
    decreases |s|
  {
    match Find(s, a, b)
    case None =>
    case Some(i) =>
      DeletePair(s, i);
      ReducePatternStack(Erase(s, i), a, b);
  }

  /** A reduced string is its own stack. */
  lemma ReducedIsStack(r: string)
    requires Reduced(r)
    ensures Process([], r) == r
  {
    ReducedPrefixIsStack(r, |r|);
    assert r[..|r|] == r;
  }

  lemma {:induction false} ReducedPrefixIsStack(r: string, k: nat)
    requires Reduced(r) && k <= |r|
    ensures Process([], r[..k]) == r[..k]
  {
    if k > 0 {
      ReducedPrefixIsStack(r, k - 1);
      assert r[..k] == r[..k - 1] + [r[k - 1]];
      ProcessAppend([], r[..k - 1], [r[k - 1]]);
      assert [r[k - 1]][1..] == [];
      if k >= 2 {
        assert !Matches(r[k - 2], r[k - 1]);
      }
    }
  }

  /** Repeated pair deletion ends where the bracket stack ends: the order in
      which `reduce_string` deletes pairs does not matter. */
  lemma {:induction false} ReduceStringIsStack(s: string)
    ensures ReduceString(s) == Process([], s)
    decreases |s|
  {
    RoundStack(s);
    if Round(s).1 > 0 {
      ReduceStringIsStack(Round(s).0);
    } else {
      ReducedIsStack(s);
    }
  }

  // ---------------------------------------------------------------------
  // Scores

  /** `score_char`: the table of error scores; characters that are not in
      the table score 0. */
  function ScoreChar(c: char): (r: nat)
    ensures r > 0 <==> IsCloser(c)
  {
    if c == ')' then 3 else if c == ']' then 57 else if c == '}' then 1197 else if c == '>' then 25137 else 0
  }

  /** `find_first_of(")}]>")`. */
  function FindCloser(s: string): (r: Option<nat>)
    ensures r.None? <==> forall i :: 0 <= i < |s| ==> !IsCloser(s[i])
    ensures r.Some? ==> r.value < |s| && IsCloser(s[r.value])
    ensures r.Some? ==> forall i :: 0 <= i < r.value ==> !IsCloser(s[i])
  {
    if s == [] then None
    else if IsCloser(s[0]) then Some(0)
    else match FindCloser(s[1..])
      case None => None
      case Some(i) => Some(i + 1)
  }

  /** The `score_string` lambda: the score of the first closer, or 0. */
  function ScoreString(s: string): nat {
    match FindCloser(s)
    case Some(i) => ScoreChar(s[i])
    case None => 0
  }

  /** The first character that breaks the bracket structure: a closer that
      does not close the innermost open bracket, if any. */
  function FirstIllegal(stack: string, s: string): Option<char>
    decreases |s|
  {
    if s == [] then None
    else if IsCloser(s[0]) then
      if |stack| > 0 && Matches(stack[|stack| - 1], s[0]) then FirstIllegal(stack[..|stack| - 1], s[1..])
      else Some(s[0])
    else FirstIllegal(stack + [s[0]], s[1..])
  }

  predicate NoClosers(s: string) {
    forall i :: 0 <= i < |s| ==> !IsCloser(s[i])
  }

  /** The first closer of `s`, as a character. */
  function FirstCloser(s: string): Option<char> {
    match FindCloser(s)
    case Some(i) => Some(s[i])
    case None => None
  }

  lemma FirstCloserAfter(p: string, w: string)
    requires NoClosers(p)
    ensures FirstCloser(p + w) == FirstCloser(w)
  {
    var s := p + w;
    match FindCloser(w)
    case None =>
      assert forall i :: 0 <= i < |s| ==> !IsCloser(s[i]) by {
        forall i | 0 <= i < |s| ensures !IsCloser(s[i]) {
          if i >= |p| { assert s[i] == w[i - |p|]; }
        }
      }
    case Some(j) =>
      assert s[|p| + j] == w[j];
  }

  /** A closer at the bottom of a stack is never popped, and nothing below
      it is ever consulted. */
  lemma {:induction false} ProcessAboveCloser(p: string, q: string, w: string)
    requires |q| > 0 && IsCloser(q[0])
    ensures Process(p + q, w) == p + Process(q, w)
    ensures |Process(q, w)| > 0 && Process(q, w)[0] == q[0]
    decreases |w|
  {
    if w != [] {
      var pq := p + q;
      assert pq[|pq| - 1] == q[|q| - 1];
      if Matches(q[|q| - 1], w[0]) {
        assert |q| >= 2;
        assert pq[..|pq| - 1] == p + q[..|q| - 1];
        ProcessAboveCloser(p, q[..|q| - 1], w[1..]);
      } else {
        assert pq + [w[0]] == p + (q + [w[0]]);
        ProcessAboveCloser(p, q + [w[0]], w[1..]);
      }
    }
  }

  /** The first closer left on the stack is the first illegal character. */
  lemma {:induction false} StackShowsFirstIllegal(stack: string, s: string)
    requires NoClosers(stack)
    ensures FirstCloser(Process(stack, s)) == FirstIllegal(stack, s)
    decreases |s|
  {
    if s == [] {
      assert FindCloser(stack).None?;
    } else if |stack| > 0 && Matches(stack[|stack| - 1], s[0]) {
      StackShowsFirstIllegal(stack[..|stack| - 1], s[1..]);
    } else if IsCloser(s[0]) {
      ProcessAboveCloser(stack, [s[0]], s[1..]);
      var rest := Process([s[0]], s[1..]);
      FirstCloserAfter(stack, rest);
      assert FindCloser(rest) == Some(0);
    } else {
      StackShowsFirstIllegal(stack + [s[0]], s[1..]);
    }
  }

  /** What the stack check reports is always a closer. */
  lemma {:induction false} FirstIllegalIsCloser(stack: string, s: string)
    ensures FirstIllegal(stack, s).Some? ==> IsCloser(FirstIllegal(stack, s).value)
    decreases |s|
  {
    if s != [] {
      if IsCloser(s[0]) {
        if |stack| > 0 && Matches(stack[|stack| - 1], s[0]) {
          FirstIllegalIsCloser(stack[..|stack| - 1], s[1..]);
        }
      } else {
        FirstIllegalIsCloser(stack + [s[0]], s[1..]);
      }
    }
  }

  /** The score of a line: the score of its first illegal character, or 0
      for a line that is only incomplete or correct. */
  function LineScore(line: string): (r: nat)
    ensures r == match FirstIllegal([], line) case Some(c) => ScoreChar(c) case None => 0
    ensures r > 0 <==> FirstIllegal([], line).Some?
  {
    ReduceStringIsStack(line);
    StackShowsFirstIllegal([], line);
    FirstIllegalIsCloser([], line);
    ScoreString(ReduceString(line))
  }

  /** `part1`: the total of the line scores. */
  function Part1(lines: seq<string>): (total: nat)
    ensures lines == [] ==> total == 0
  {
    if lines == [] then 0 else LineScore(lines[0]) + Part1(lines[1..])
  }

  /** The total is 0 exactly when no line has an illegal character. */
  lemma {:induction false} Part1CountsCorrupted(lines: seq<string>)
    ensures Part1(lines) == 0 <==> forall i :: 0 <= i < |lines| ==> FirstIllegal([], lines[i]).None?
  {
    if lines != [] {
      var rest := lines[1..];
      Part1CountsCorrupted(rest);
      assert forall i :: 1 <= i < |lines| ==> rest[i - 1] == lines[i];
      assert Part1(lines) == LineScore(lines[0]) + Part1(rest);
    }
  }
}
