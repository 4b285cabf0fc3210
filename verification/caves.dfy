/** Passage pathing (day 12). The cave map sends each cave name to its
    neighbours. The search starts at "start", copies the map into every
    recursive call, and erases a small cave from the copy once it has been
    entered, so a small cave that is entered again has no way on. A path is
    recorded when it reaches "end". In `part2` one small cave may be entered
    twice: while `promoted` names it, entering it clears `promoted` instead
    of erasing it. */
module Caves {
  import opened Tokenize

  type Cave = string
  type CaveMap = map<Cave, seq<Cave>>

  /** `is_big_cave`: the first character is an upper-case letter. The
      empty name reads the terminating NUL and so is small. */
  predicate IsBig(name: Cave) {
    |name| > 0 && 'A' <= name[0] <= 'Z'
  }

  predicate IsSmall(name: Cave) {
    !IsBig(name)
  }

  /** `cavemap[current]`: a missing key reads as no neighbours. */
  function Neighbors(m: CaveMap, c: Cave): seq<Cave> {
    if c in m then m[c] else []
  }

  /** `q` continues `path` with `current`. */
  predicate Extends(q: seq<Cave>, path: seq<Cave>, current: Cave) {
    |q| > |path| && q[..|path|] == path && q[|path|] == current
  }

  // ---------------------------------------------------------------------
  // The search

  /** The recursive `bfs` lambda of `part2` (and of `part1`, which is the
      same search with no promoted cave). It answers the paths recorded
      below this call, in order. `fuel` bounds the number of further moves:
      a map with two neighbouring big caves makes the code recurse forever. */
  function Search(m: CaveMap, current: Cave, promoted: Cave, path: seq<Cave>, fuel: nat): seq<seq<Cave>>
    decreases fuel, 0
  {
    var here := path + [current];
    if current == "end" then [here]
    else if fuel == 0 then []
    else SearchAll(StepMap(m, current, promoted), Neighbors(m, current), StepPromoted(current, promoted), here, fuel - 1)
  }

  /** The map handed to the neighbours: the promoted cave stays, any other
      small cave is erased. */
  function StepMap(m: CaveMap, current: Cave, promoted: Cave): CaveMap {
    if current == promoted then m else if IsSmall(current) then m - {current} else m
  }

  /** Entering the promoted cave clears `promoted`. */
  function StepPromoted(current: Cave, promoted: Cave): Cave {
    if current == promoted then "" else promoted
  }

  lemma SearchStops(m: CaveMap, current: Cave, promoted: Cave, path: seq<Cave>, fuel: nat)
    requires current == "end" || fuel == 0
    ensures Search(m, current, promoted, path, fuel) == if current == "end" then [path + [current]] else []
  {
  }

  lemma SearchUnfold(m: CaveMap, current: Cave, promoted: Cave, path: seq<Cave>, fuel: nat)
    requires current != "end" && fuel > 0
    ensures Search(m, current, promoted, path, fuel)
      == SearchAll(StepMap(m, current, promoted), Neighbors(m, current), StepPromoted(current, promoted), path + [current], fuel - 1)
  {
  }

  /** The loop over the neighbours, concatenating what each call records. */
  function SearchAll(m: CaveMap, ns: seq<Cave>, promoted: Cave, path: seq<Cave>, fuel: nat): seq<seq<Cave>>
    decreases fuel, |ns| + 1
  {
    if ns == [] then []
    else Search(m, ns[0], promoted, path, fuel) + SearchAll(m, ns[1..], promoted, path, fuel)
  }

  lemma ExtendsLonger(q: seq<Cave>, here: seq<Cave>, path: seq<Cave>, current: Cave)
    requires here == path + [current] && |q| > |here| && q[..|here|] == here
    ensures Extends(q, path, current)
  {
    assert q[..|path|] == q[..|here|][..|path|];
  }

  /** Every recorded path continues the current one with `current`, ends
      in "end", and makes at most `fuel` further moves. */
  lemma {:induction false} SearchShape(m: CaveMap, current: Cave, promoted: Cave, path: seq<Cave>, fuel: nat)
    ensures forall q :: q in Search(m, current, promoted, path, fuel) ==>
      Extends(q, path, current) && q[|q| - 1] == "end" && |q| <= |path| + 1 + fuel
    decreases fuel, 0
  {
    var here := path + [current];
    if current == "end" || fuel == 0 {
      SearchStops(m, current, promoted, path, fuel);
    } else {
      var ns := Neighbors(m, current);
      var m', promoted' := StepMap(m, current, promoted), StepPromoted(current, promoted);
      var r := SearchAll(m', ns, promoted', here, fuel - 1);
      SearchUnfold(m, current, promoted, path, fuel);
      SearchAllShape(m', ns, promoted', here, fuel - 1);
      forall q | q in r ensures Extends(q, path, current) {
        ExtendsLonger(q, here, path, current);
      }
      assert Search(m, current, promoted, path, fuel) == r;
    }
  }

  lemma {:induction false} SearchAllShape(m: CaveMap, ns: seq<Cave>, promoted: Cave, path: seq<Cave>, fuel: nat)
    ensures forall q :: q in SearchAll(m, ns, promoted, path, fuel) ==>
      && |q| > |path| && q[..|path|] == path && q[|path|] in ns
      && q[|q| - 1] == "end" && |q| <= |path| + 1 + fuel
    decreases fuel, |ns| + 1
  {
    if ns != [] {
      SearchShape(m, ns[0], promoted, path, fuel);
      SearchAllShape(m, ns[1..], promoted, path, fuel);
    }
  }

  /** Every name is non-empty and free of commas: `read_data` takes the
      names from `split_str`, which never yields an empty token. */
  predicate NameOk(c: Cave) {
    |c| > 0 && ',' !in c
  }

  predicate NamesOk(data: CaveMap) {
    forall c :: c in data ==> NameOk(c) && forall i :: 0 <= i < |data[c]| ==> NameOk(data[c][i])
  }

  /** The search's copy of the map is the input map with some caves
      erased. */
  predicate Within(m: CaveMap, data: CaveMap) {
    forall c :: c in m ==> c in data && m[c] == data[c]
  }

  /** Each step of `q` follows a passage of the map. */
  predicate IsWalk(data: CaveMap, q: seq<Cave>) {
    forall i :: 0 <= i < |q| - 1 ==> q[i + 1] in Neighbors(data, q[i])
  }

  function Part1(data: CaveMap, fuel: nat): nat {
    |Search(data, "start", "", [], fuel)|
  }

  // ---------------------------------------------------------------------
  // Recorded paths follow passages

  lemma {:induction false} SearchWalks(data: CaveMap, m: CaveMap, current: Cave, promoted: Cave, path: seq<Cave>, fuel: nat)
    requires Within(m, data) && IsWalk(data, path + [current])
    ensures forall q :: q in Search(m, current, promoted, path, fuel) ==> IsWalk(data, q)
    decreases fuel, 0
  {
    if current == "end" || fuel == 0 {
      SearchStops(m, current, promoted, path, fuel);
    } else {
      var m', promoted' := StepMap(m, current, promoted), StepPromoted(current, promoted);
      SearchUnfold(m, current, promoted, path, fuel);
      var r := SearchAll(m', Neighbors(m, current), promoted', path + [current], fuel - 1);
      SearchAllWalks(data, m', Neighbors(m, current), promoted', path + [current], fuel - 1);
      assert forall q :: q in r ==> IsWalk(data, q);
      assert Search(m, current, promoted, path, fuel) == r;
    }
  }

  lemma {:induction false} SearchAllWalks(data: CaveMap, m: CaveMap, ns: seq<Cave>, promoted: Cave, path: seq<Cave>, fuel: nat)
    requires Within(m, data) && IsWalk(data, path) && |path| > 0
    requires forall i :: 0 <= i < |ns| ==> ns[i] in Neighbors(data, path[|path| - 1])
    ensures forall q :: q in SearchAll(m, ns, promoted, path, fuel) ==> IsWalk(data, q)
    decreases fuel, |ns| + 1
  {
    if ns != [] {
      var here := path + [ns[0]];
      assert IsWalk(data, here) by {
        forall i | 0 <= i < |here| - 1 ensures here[i + 1] in Neighbors(data, here[i]) {
          if i < |path| - 1 {
            assert here[i] == path[i] && here[i + 1] == path[i + 1];
          }
        }
      }
      SearchWalks(data, m, ns[0], promoted, path, fuel);
      SearchAllWalks(data, m, ns[1..], promoted, path, fuel);
    }
  }

  // ---------------------------------------------------------------------
  // Small caves

  function Count(q: seq<Cave>, c: Cave): nat {
    multiset(q)[c]
  }

  /** The visiting rule of `part2` with promoted cave `p` (no cave at all
      when `p` is empty, which is `part1`): every other small cave at most
      once, `p` at most twice. */
  predicate Visits(q: seq<Cave>, p: Cave) {
    && (forall i :: 0 <= i < |q| && IsSmall(q[i]) && q[i] != p ==> Count(q, q[i]) == 1)
    && Count(q, p) <= 2
  }

  /** What the search state keeps true along a path: every small cave
      entered so far (other than the promoted one) was entered once and is
      gone from the map; the promoted cave has not been entered while
      `promoted` still names it, and once it is cleared the cave has been
      entered once, or twice and then erased. */
  predicate Inv(m: CaveMap, p: Cave, promoted: Cave, path: seq<Cave>) {
    && (promoted == p || promoted == "")
    && "end" !in path && "" !in path
    && (forall i :: 0 <= i < |path| && IsSmall(path[i]) && path[i] != p ==> Count(path, path[i]) == 1 && path[i] !in m)
    && (p != "" && promoted == p ==> Count(path, p) == 0)
    && (p != "" && promoted == "" ==> Count(path, p) == 1 || (Count(path, p) == 2 && p !in m))
  }

  lemma CountAppend(path: seq<Cave>, c: Cave, d: Cave)
    ensures Count(path + [c], d) == Count(path, d) + (if c == d then 1 else 0)
  {
    assert multiset(path + [c]) == multiset(path) + multiset{c};
  }

  /** Reaching "end" records a path that keeps the visiting rule. */
  lemma EndVisits(m: CaveMap, p: Cave, promoted: Cave, path: seq<Cave>)
    requires p != "end" && Inv(m, p, promoted, path)
    ensures Visits(path + ["end"], p)
  {
    var here := path + ["end"];
    forall d ensures Count(here, d) == Count(path, d) + (if d == "end" then 1 else 0) {
      CountAppend(path, "end", d);
    }
    forall i | 0 <= i < |here| && IsSmall(here[i]) && here[i] != p ensures Count(here, here[i]) == 1 {
      if i < |path| {
        assert here[i] == path[i];
      }
    }
  }

  /** Entering a cave that still has neighbours keeps the search state
      invariant. */
  lemma StepInv(data: CaveMap, m: CaveMap, current: Cave, p: Cave, promoted: Cave, path: seq<Cave>)
    requires NameOk(current) && current != "end" && current in m
    requires p != "end" && (p != "" ==> IsSmall(p))
    requires Inv(m, p, promoted, path)
    ensures Inv(StepMap(m, current, promoted), p, StepPromoted(current, promoted), path + [current])
  {
    var here := path + [current];
    var m' := StepMap(m, current, promoted);
    forall d ensures Count(here, d) == Count(path, d) + (if current == d then 1 else 0) {
      CountAppend(path, current, d);
    }
    forall i | 0 <= i < |here| && IsSmall(here[i]) && here[i] != p
      ensures Count(here, here[i]) == 1 && here[i] !in m'
    {
      if i < |path| {
        assert here[i] == path[i];
      }
    }
  }

  lemma {:induction false} SearchVisits(data: CaveMap, m: CaveMap, current: Cave, p: Cave, promoted: Cave, path: seq<Cave>, fuel: nat)
    requires NamesOk(data) && Within(m, data) && NameOk(current)
    requires p != "end" && (p != "" ==> IsSmall(p))
    requires Inv(m, p, promoted, path)
    ensures forall q :: q in Search(m, current, promoted, path, fuel) ==> Visits(q, p)
    decreases fuel, 0
  {
    if current == "end" || fuel == 0 {
      SearchStops(m, current, promoted, path, fuel);
      if current == "end" {
        EndVisits(m, p, promoted, path);
      }
    } else {
      var ns := Neighbors(m, current);
      var m', promoted' := StepMap(m, current, promoted), StepPromoted(current, promoted);
      var r := SearchAll(m', ns, promoted', path + [current], fuel - 1);
      SearchUnfold(m, current, promoted, path, fuel);
      assert Search(m, current, promoted, path, fuel) == r;
      if ns != [] {
        StepInv(data, m, current, p, promoted, path);
        forall i | 0 <= i < |ns| ensures NameOk(ns[i]) {
          assert ns[i] in data[current];
        }
        SearchAllVisits(data, m', ns, p, promoted', path + [current], fuel - 1);
        assert forall q :: q in r ==> Visits(q, p);
      } else {
        assert r == [];
      }
    }
  }

  lemma {:induction false} SearchAllVisits(data: CaveMap, m: CaveMap, ns: seq<Cave>, p: Cave, promoted: Cave, path: seq<Cave>, fuel: nat)
    requires NamesOk(data) && Within(m, data) && forall i :: 0 <= i < |ns| ==> NameOk(ns[i])
    requires p != "end" && (p != "" ==> IsSmall(p))
    requires Inv(m, p, promoted, path)
    ensures forall q :: q in SearchAll(m, ns, promoted, path, fuel) ==> Visits(q, p)
    decreases fuel, |ns| + 1
  {
    if ns != [] {
      SearchVisits(data, m, ns[0], p, promoted, path, fuel);
      SearchAllVisits(data, m, ns[1..], p, promoted, path, fuel);
    }
  }

  // ---------------------------------------------------------------------
  // Part 1: exactly the routes that enter each small cave at most once

  /** A route of `part1`: from "start" to "end" along passages, entering
      every small cave at most once (so "end" only at the end). */
  predicate Route(data: CaveMap, q: seq<Cave>) {
    |q| > 0 && q[0] == "start" && q[|q| - 1] == "end" && IsWalk(data, q) && Visits(q, "")
  }

  lemma TwoPlaces(q: seq<Cave>, i: nat, j: nat)
    requires i < j < |q| && q[i] == q[j]
    ensures Count(q, q[i]) >= 2
  {
    assert q == q[..i] + [q[i]] + q[i + 1..j] + [q[j]] + q[j + 1..];
    assert multiset(q) == multiset(q[..i]) + multiset{q[i]} + multiset(q[i + 1..j]) + multiset{q[j]} + multiset(q[j + 1..]);
  }

  lemma VisitsTail(q: seq<Cave>)
    requires |q| > 0 && Visits(q, "")
    ensures Visits(q[1..], "")
  {
    assert q == [q[0]] + q[1..];
    assert multiset(q) == multiset{q[0]} + multiset(q[1..]);
    forall i | 0 <= i < |q[1..]| && IsSmall(q[1..][i]) && q[1..][i] != "" ensures Count(q[1..], q[1..][i]) == 1 {
      assert q[1..][i] == q[i + 1];
    }
  }

  /** What the search may be asked to find below `current`: a walk
      `rest` from `current` to "end" that enters small caves at most once
      and, until its last cave, keeps to the caves still in the map. */
  predicate Findable(data: CaveMap, m: CaveMap, rest: seq<Cave>, fuel: nat) {
    && |rest| > 0 && rest[|rest| - 1] == "end" && |rest| <= fuel + 1
    && IsWalk(data, rest) && Visits(rest, "") && "" !in rest
    && forall i :: 0 <= i < |rest| - 1 ==> rest[i] in m
  }

  /** A findable walk that starts at "end" is just "end". */
  lemma FindableEnd(data: CaveMap, m: CaveMap, rest: seq<Cave>, fuel: nat)
    requires Findable(data, m, rest, fuel) && rest[0] == "end"
    ensures rest == ["end"]
  {
    if |rest| > 1 {
      TwoPlaces(rest, 0, |rest| - 1);
    }
  }

  /** After one move the rest of the walk is findable from the next cave. */
  lemma FindableStep(data: CaveMap, m: CaveMap, rest: seq<Cave>, fuel: nat)
    requires Within(m, data) && Findable(data, m, rest, fuel) && rest[0] != "end"
    ensures |rest| > 1 && fuel > 0
    ensures rest[1] in Neighbors(m, rest[0])
    ensures Findable(data, StepMap(m, rest[0], ""), rest[1..], fuel - 1)
  {
    var current, tail := rest[0], rest[1..];
    var m' := StepMap(m, current, "");
    assert rest[1] in Neighbors(data, rest[0]);
    forall i | 0 <= i < |tail| - 1 ensures tail[i] in m' {
      assert tail[i] == rest[i + 1];
      if IsSmall(current) && tail[i] == current {
        TwoPlaces(rest, 0, i + 1);
      }
    }
    VisitsTail(rest);
    assert IsWalk(data, tail) by {
      forall i | 0 <= i < |tail| - 1 ensures tail[i + 1] in Neighbors(data, tail[i]) {
        assert tail[i] == rest[i + 1] && tail[i + 1] == rest[i + 2];
      }
    }
  }

  /** The search finds every findable continuation of the current path. */
  lemma {:induction false} SearchFinds(data: CaveMap, m: CaveMap, current: Cave, path: seq<Cave>, rest: seq<Cave>, fuel: nat)
    requires Within(m, data) && Findable(data, m, rest, fuel) && rest[0] == current
    ensures path + rest in Search(m, current, "", path, fuel)
    decreases fuel, 0
  {
    if current == "end" {
      FindableEnd(data, m, rest, fuel);
      SearchStops(m, current, "", path, fuel);
    } else {
      FindableStep(data, m, rest, fuel);
      var here := path + [current];
      SearchUnfold(m, current, "", path, fuel);
      SearchAllFinds(data, StepMap(m, current, ""), Neighbors(m, current), here, rest[1..], fuel - 1);
      assert here + rest[1..] == path + rest;
    }
  }

  lemma {:induction false} SearchAllFinds(data: CaveMap, m: CaveMap, ns: seq<Cave>, path: seq<Cave>, rest: seq<Cave>, fuel: nat)
    requires Within(m, data) && Findable(data, m, rest, fuel) && rest[0] in ns
    ensures path + rest in SearchAll(m, ns, "", path, fuel)
    decreases fuel, |ns| + 1
  {
    if ns[0] == rest[0] {
      SearchFinds(data, m, ns[0], path, rest, fuel);
    } else {
      SearchAllFinds(data, m, ns[1..], path, rest, fuel);
    }
  }

  /** `part1` records exactly the routes that fit in the fuel, each once
      for every way the neighbour lists lead to it. */
  lemma Part1Routes(data: CaveMap, fuel: nat, q: seq<Cave>)
    requires NamesOk(data)
    ensures q in Search(data, "start", "", [], fuel) <==> Route(data, q) && |q| <= fuel + 1
  {
    if q in Search(data, "start", "", [], fuel) {
      SearchShape(data, "start", "", [], fuel);
      SearchWalks(data, data, "start", "", [], fuel);
      SearchVisits(data, data, "start", "", "", [], fuel);
    }
    if Route(data, q) && |q| <= fuel + 1 {
      forall i | 0 <= i < |q| - 1 ensures q[i] in data {
        assert q[i + 1] in Neighbors(data, q[i]);
      }
      assert "" !in q by {
        forall i | 0 <= i < |q| ensures q[i] != "" {
          if i > 0 {
            assert q[i] in Neighbors(data, q[i - 1]);
          }
        }
      }
      SearchFinds(data, data, "start", [], q, fuel);
      assert [] + q == q;
    }
  }

  // ---------------------------------------------------------------------
  // Part 2

  /** `flatten`: the names joined with commas; a comma goes in only once
      the result is non-empty. */
  function FlattenFrom(result: string, vec: seq<string>): string
    decreases |vec|
  {
    if vec == [] then result
    else FlattenFrom(if |result| > 0 then result + "," + vec[0] else result + vec[0], vec[1..])
  }

  function Flatten(vec: seq<string>): string {
    FlattenFrom("", vec)
  }

  lemma {:induction false} FlattenFromJoin(result: string, vec: seq<string>)
    requires |result| > 0 && |vec| > 0
    ensures FlattenFrom(result, vec) == result + [','] + Join(vec, ',')
    decreases |vec|
  {
    var next := result + "," + vec[0];
    if |vec| > 1 {
      FlattenFromJoin(next, vec[1..]);
      assert Join(vec, ',') == vec[0] + [','] + Join(vec[1..], ',');
    }
  }

  /** For non-empty names `flatten` is the comma join: no leading comma,
      and the empty list gives the empty string. */
  lemma FlattenIsJoin(vec: seq<string>)
    requires forall i :: 0 <= i < |vec| ==> |vec[i]| > 0
    ensures Flatten(vec) == Join(vec, ',')
  {
    if |vec| > 0 {
      assert "" + vec[0] == vec[0];
      assert Flatten(vec) == FlattenFrom(vec[0], vec[1..]);
      if |vec| > 1 {
        FlattenFromJoin(vec[0], vec[1..]);
      }
    }
  }

  /** Splitting at commas undoes `flatten`, so two paths with the same
      string are the same path. */
  lemma FlattenSplits(vec: seq<string>)
    requires forall i :: 0 <= i < |vec| ==> NameOk(vec[i])
    ensures SplitStr(Flatten(vec), ",") == vec
  {
    FlattenIsJoin(vec);
    forall i | 0 <= i < |vec| ensures NoSep(vec[i], InSet(",")) {
      assert forall j :: 0 <= j < |vec[i]| ==> vec[i][j] != ',';
    }
    TokensOfJoin(vec, ',', InSet(","));
  }

  /** `in_path`: a linear search for the cave (the code defines it but
      does not call it). */
  function InPath(cave: Cave, path: seq<Cave>): (r: bool)
    ensures r <==> cave in path
  {
    if path == [] then false
    else if path[0] == cave then true
    else
      assert path == [path[0]] + path[1..];
      InPath(cave, path[1..])
  }

  /** The small caves `part2` promotes in turn. */
  function Promotable(data: CaveMap): set<Cave> {
    set c | c in data && IsSmall(c) && c != "start" && c != "end"
  }

  /** Every path recorded for some promoted cave. */
  function Recorded(data: CaveMap, fuel: nat): set<seq<Cave>> {
    set p, q | p in Promotable(data) && q in Search(data, "start", p, [], fuel) :: q
  }

  /** `part2`: the number of distinct `flatten` strings recorded. */
  function Part2(data: CaveMap, fuel: nat): nat {
    |set p, q | p in Promotable(data) && q in Search(data, "start", p, [], fuel) :: Flatten(q)|
  }

  /** Every path recorded by `part2` goes from "start" to "end" along
      passages, with some promoted cave entered at most twice and every
      other small cave at most once. */
  lemma Part2Rule(data: CaveMap, fuel: nat, q: seq<Cave>)
    requires NamesOk(data) && q in Recorded(data, fuel)
    ensures exists p :: p in Promotable(data) && Visits(q, p)
    ensures |q| > 0 && q[0] == "start" && q[|q| - 1] == "end" && IsWalk(data, q)
  {
    var p :| p in Promotable(data) && q in Search(data, "start", p, [], fuel);
    SearchShape(data, "start", p, [], fuel);
    SearchWalks(data, data, "start", p, [], fuel);
    SearchVisits(data, data, "start", p, p, [], fuel);
  }

  /** Recorded paths use only names from the map. */
  lemma RecordedNames(data: CaveMap, fuel: nat, q: seq<Cave>)
    requires NamesOk(data) && q in Recorded(data, fuel)
    ensures forall i :: 0 <= i < |q| ==> NameOk(q[i])
  {
    Part2Rule(data, fuel, q);
    forall i | 0 <= i < |q| ensures NameOk(q[i]) {
      if i > 0 {
        assert q[(i - 1) + 1] in data[q[i - 1]];
      }
    }
  }

  lemma {:induction false} InjectiveImage(s: set<seq<Cave>>)
    requires forall a, b :: a in s && b in s && Flatten(a) == Flatten(b) ==> a == b
    ensures |set q | q in s :: Flatten(q)| == |s|
    decreases |s|
  {
    if s != {} {
      var x :| x in s;
      var s' := s - {x};
      InjectiveImage(s');
      assert (set q | q in s :: Flatten(q)) == (set q | q in s' :: Flatten(q)) + {Flatten(x)};
      assert Flatten(x) !in (set q | q in s' :: Flatten(q));
    }
  }

  /** Deduplicating by `flatten` deduplicates by path: `part2` counts the
      distinct recorded paths. */
  lemma Part2CountsPaths(data: CaveMap, fuel: nat)
    requires NamesOk(data)
    ensures Part2(data, fuel) == |Recorded(data, fuel)|
  {
    var s := Recorded(data, fuel);
    RecordedInjective(data, fuel);
    InjectiveImage(s);
    Part2IsImage(data, fuel);
  }

  /** Distinct recorded paths flatten to distinct strings. */
  lemma RecordedInjective(data: CaveMap, fuel: nat)
    requires NamesOk(data)
    ensures forall a, b :: a in Recorded(data, fuel) && b in Recorded(data, fuel) && Flatten(a) == Flatten(b) ==> a == b
  {
    var s := Recorded(data, fuel);
    forall a, b | a in s && b in s && Flatten(a) == Flatten(b) ensures a == b {
      RecordedNames(data, fuel, a);
      RecordedNames(data, fuel, b);
      FlattenSplits(a);
      FlattenSplits(b);
    }
  }

  /** The strings `part2` collects are the flattened recorded paths. */
  lemma Part2IsImage(data: CaveMap, fuel: nat)
    ensures Part2(data, fuel) == |set q | q in Recorded(data, fuel) :: Flatten(q)|
  {
    var s := Recorded(data, fuel);
    var direct := set p, q | p in Promotable(data) && q in Search(data, "start", p, [], fuel) :: Flatten(q);
    var image := set q | q in s :: Flatten(q);
    forall x | x in direct ensures x in image {
      var p, q :| p in Promotable(data) && q in Search(data, "start", p, [], fuel) && x == Flatten(q);
      assert q in s;
    }
    forall x | x in image ensures x in direct {
      var q :| q in s && x == Flatten(q);
      var p :| p in Promotable(data) && q in Search(data, "start", p, [], fuel);
    }
    assert direct == image;
  }
}
