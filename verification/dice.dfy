/** Dirac Dice (day 21). Two pawns move round a circular track of spaces
    1..10 and score the space they land on. Part 1 rolls a deterministic
    die that counts 1, 2, 3, ...; part 2 splits the universe on every roll
    of three three-sided dice and counts the universes each player wins. */
module Dice {
  import opened Arith

  datatype Player = Player(position: int, score: int)

  /** A pawn on the track with a score that has never gone down. */
  predicate Valid(p: Player) {
    1 <= p.position <= 10 && p.score >= 0
  }

  /** `((position - 1) + roll) % 10 + 1`, with C++'s truncating `%`. */
  function Advance(position: int, roll: int): (r: int)
    ensures position - 1 + roll >= 0 ==> 1 <= r <= 10
  {
    Rem(position - 1 + roll, 10) + 1
  }

  /** From a space on the track, a non-negative roll lands on the space that
      is `roll` spaces on modulo 10. */
  lemma AdvanceWraps(position: int, roll: int)
    requires 1 <= position <= 10 && roll >= 0
    ensures (Advance(position, roll) - position - roll) % 10 == 0
  {
  }

  // ---------------------------------------------------------------------
  // Part 1: the deterministic die

  /** Turn `n` rolls the die three times, getting 3n-2, 3n-1 and 3n. */
  function Roll(turn: int): (r: int)
    ensures r == (3 * turn - 2) + (3 * turn - 1) + 3 * turn
  {
    3 * (3 * turn - 1)
  }

  /** Odd turns move the first player and even turns the second. */
  function Mover(turn: int): (i: nat)
    ensures i < 2
    ensures turn >= 0 ==> (i == 0 <==> turn % 2 == 1)
  {
    if Rem(turn, 2) == 1 then 0 else 1
  }

  /** `ten_sided_turn`: the player whose turn it is advances by the roll and
      adds the space reached to their score; no one else changes. */
  function TenSidedTurn(players: seq<Player>, turn: int): (r: seq<Player>)
    requires |players| >= 2
    ensures |r| == |players|
    ensures forall j :: 0 <= j < |r| && j != Mover(turn) ==> r[j] == players[j]
  {
    var i := Mover(turn);
    var position := Advance(players[i].position, Roll(turn));
    players[i := Player(position, players[i].score + position)]
  }

  /** For a turn from 1 on, the mover advances by the roll, stays on the
      track and gains the space landed on. */
  lemma TurnMovesMover(players: seq<Player>, turn: int)
    requires |players| >= 2 && turn >= 1
    requires Valid(players[0]) && Valid(players[1])
    ensures var r, i := TenSidedTurn(players, turn), Mover(turn);
      && Valid(r[0]) && Valid(r[1])
      && r[i].position == Advance(players[i].position, Roll(turn))
      && r[i].score == players[i].score + r[i].position
      && r[i].score > players[i].score
  {
    var i := Mover(turn);
    assert players[i].position - 1 + Roll(turn) >= 0;
  }

  /** `max_score`: 0 for no players, else the largest score. */
  function MaxScore(players: seq<Player>): (m: int)
    ensures m >= 0
  {
    if players == [] then 0 else Max(MaxScore(players[1..]), players[0].score)
  }

  /** No score exceeds `MaxScore`, and unless it is 0 some player has it. */
  lemma {:induction false} MaxScoreIsMax(players: seq<Player>)
    ensures forall j :: 0 <= j < |players| ==> players[j].score <= MaxScore(players)
    ensures MaxScore(players) == 0 || exists j :: 0 <= j < |players| && players[j].score == MaxScore(players)
  {
    if players != [] {
      MaxScoreIsMax(players[1..]);
      if MaxScore(players) != players[0].score && MaxScore(players) != 0 {
        var j :| 0 <= j < |players[1..]| && players[1..][j].score == MaxScore(players);
        assert players[j + 1].score == MaxScore(players);
      }
    }
  }

  /** The players after turns 1 to `n`. */
  function Game(players: seq<Player>, n: nat): (r: seq<Player>)
    requires |players| >= 2
    ensures |r| == |players|
  {
    if n == 0 then players else TenSidedTurn(Game(players, n - 1), n)
  }

  lemma GameUnfold(players: seq<Player>, t: nat)
    requires |players| >= 2
    ensures Game(players, t + 1) == TenSidedTurn(Game(players, t), t + 1)
  {
  }

  /** The loop of `part1` from turn `turn` on: it plays while every score is
      below 1000 and returns the players and the number of turns played. */
  function PlayFrom(players: seq<Player>, turn: nat): (r: (seq<Player>, nat))
    requires |players| >= 2 && turn >= 1
    requires Valid(players[0]) && Valid(players[1])
    ensures |r.0| >= 2 && Valid(r.0[0]) && Valid(r.0[1])
    decreases 2000 - players[0].score - players[1].score
  {
    if MaxScore(players) >= 1000 then (players, turn - 1)
    else
      MaxScoreIsMax(players);
      TurnMovesMover(players, turn);
      PlayFrom(TenSidedTurn(players, turn), turn + 1)
  }

  /** Turns keep both pawns on the track with non-negative scores. */
  lemma {:induction false} GameValid(start: seq<Player>, n: nat)
    requires |start| >= 2 && Valid(start[0]) && Valid(start[1])
    ensures Valid(Game(start, n)[0]) && Valid(Game(start, n)[1])
  {
    if n > 0 {
      var t: nat := n - 1;
      GameValid(start, t);
      TurnMovesMover(Game(start, t), t + 1);
      GameUnfold(start, t);
    }
  }

  /** One turn of `PlayFrom` below 1000: the next state is the game one
      turn on, with both pawns still valid. */
  lemma {:induction false} PlayFromStep(start: seq<Player>, g: seq<Player>, t: nat)
    requires |start| >= 2 && g == Game(start, t) && Valid(g[0]) && Valid(g[1])
    requires MaxScore(g) < 1000
    ensures var next := TenSidedTurn(g, t + 1);
      && next == Game(start, t + 1) && Valid(next[0]) && Valid(next[1])
      && next[0].score + next[1].score > g[0].score + g[1].score
      && PlayFrom(g, t + 1) == PlayFrom(next, t + 2)
  {
    MaxScoreIsMax(g);
    TurnMovesMover(g, t + 1);
    GameUnfold(start, t);
  }

  /** The turns `PlayFrom` plays are the turns of the game from the start,
      up to one after which some score has reached 1000. */
  lemma {:induction false} PlayFromIsGame(start: seq<Player>, g: seq<Player>, t: nat)
    requires |start| >= 2 && g == Game(start, t) && Valid(g[0]) && Valid(g[1])
    ensures var r := PlayFrom(g, t + 1);
      t <= r.1 && r.0 == Game(start, r.1) && MaxScore(r.0) >= 1000
    decreases 2000 - g[0].score - g[1].score
  {
    if MaxScore(g) < 1000 {
      PlayFromStep(start, g, t);
      PlayFromIsGame(start, TenSidedTurn(g, t + 1), t + 1);
    }
  }

  /** No score reaches 1000 after any of the turns from `lo` up to `hi`. */
  predicate NoWinBetween(start: seq<Player>, lo: nat, hi: nat)
    requires |start| >= 2
  {
    forall k :: lo <= k < hi ==> MaxScore(Game(start, k)) < 1000
  }

  /** `PlayFrom` stops at the first such turn: before it no score had
      reached 1000. */
  lemma {:induction false} PlayFromStopsFirst(start: seq<Player>, g: seq<Player>, t: nat)
    requires |start| >= 2 && g == Game(start, t) && Valid(g[0]) && Valid(g[1])
    ensures NoWinBetween(start, t, PlayFrom(g, t + 1).1)
    decreases 2000 - g[0].score - g[1].score
  {
    if MaxScore(g) < 1000 {
      var next := TenSidedTurn(g, t + 1);
      PlayFromStep(start, g, t);
      PlayFromStopsFirst(start, next, t + 1);
      StopsFirstStep(start, g, t, PlayFrom(next, t + 2).1);
    }
  }

  lemma {:induction false} StopsFirstStep(start: seq<Player>, g: seq<Player>, t: nat, n: nat)
    requires |start| >= 2 && g == Game(start, t) && MaxScore(g) < 1000
    requires NoWinBetween(start, t + 1, n)
    ensures NoWinBetween(start, t, n)
  {
  }

  /** `part1`: the losing score times the number of rolls, 3 per turn. */
  function Part1(players: seq<Player>): int
    requires |players| >= 2 && Valid(players[0]) && Valid(players[1])
  {
    var (final, turns) := PlayFrom(players, 1);
    Min(final[0].score, final[1].score) * (turns * 3)
  }

  /** `part1` plays the game exactly until some score first reaches 1000. */
  lemma {:induction false} Part1StopsAtFirstWin(players: seq<Player>)
    requires |players| >= 2 && Valid(players[0]) && Valid(players[1])
    ensures var r := PlayFrom(players, 1);
      && r.0 == Game(players, r.1) && MaxScore(r.0) >= 1000
      && forall k :: 0 <= k < r.1 ==> MaxScore(Game(players, k)) < 1000
  {
    assert Game(players, 0) == players;
    PlayFromIsGame(players, players, 0);
    PlayFromStopsFirst(players, players, 0);
  }

  // ---------------------------------------------------------------------
  // Part 2: the quantum die

  /** `roll_ways`: each total of three three-sided dice with the number of
      ways to roll it. */
  const RollWays: seq<(int, nat)> := [(3, 1), (4, 3), (5, 6), (6, 7), (7, 6), (8, 3), (9, 1)]

  /** The number of ways `k` three-sided dice add up to `total`. */
  function Outcomes(k: nat, total: int): nat {
    if total < k || 3 * k < total then 0
    else if k == 0 then 1
    else Outcomes(k - 1, total - 1) + Outcomes(k - 1, total - 2) + Outcomes(k - 1, total - 3)
  }

  /** Three dice roll 3 to 9 in 1, 3, 6, 7, 6, 3 and 1 ways. */
  lemma ThreeDiceTable()
    ensures Outcomes(3, 3) == 1 && Outcomes(3, 4) == 3 && Outcomes(3, 5) == 6 && Outcomes(3, 6) == 7
    ensures Outcomes(3, 7) == 6 && Outcomes(3, 8) == 3 && Outcomes(3, 9) == 1
  {
    assert Outcomes(2, 2) == 1 && Outcomes(2, 3) == 2 && Outcomes(2, 4) == 3;
    assert Outcomes(2, 5) == 2 && Outcomes(2, 6) == 1;
  }

  function SumWays(ways: seq<(int, nat)>): nat {
    if ways == [] then 0 else ways[0].1 + SumWays(ways[1..])
  }

  /** The table lists the totals 3 to 9 in order, each with the number of
      ways three dice roll it, and so accounts for all 27 rolls. */
  lemma RollWaysAreDiceCounts()
    ensures |RollWays| == 7
    ensures forall i :: 0 <= i < 7 ==> RollWays[i].0 == i + 3 && RollWays[i].1 == Outcomes(3, i + 3)
    ensures SumWays(RollWays) == 27
  {
    ThreeDiceTable();
    forall i | 0 <= i < 7
      ensures RollWays[i].0 == i + 3 && RollWays[i].1 == Outcomes(3, i + 3)
    {
      if i == 0 {} else if i == 1 {} else if i == 2 {} else if i == 3 {} else if i == 4 {} else if i == 5 {} else {}
    }
    assert SumWays(RollWays[6..]) == 1;
    assert SumWays(RollWays[4..]) == 10 by {
      assert RollWays[4..][1..] == RollWays[5..];
      assert RollWays[5..][1..] == RollWays[6..];
    }
    assert SumWays(RollWays[2..]) == 23 by {
      assert RollWays[2..][1..] == RollWays[3..];
      assert RollWays[3..][1..] == RollWays[4..];
    }
    assert RollWays[1..][1..] == RollWays[2..];
  }

  /** What still bounds the recursion: the points both players lack and
      whether the player who just moved has yet to win. */
  function Remaining(p1: Player, p2: Player): nat
    requires Valid(p1) && Valid(p2)
  {
    (21 - Min(p1.score, 21)) + (21 - Min(p2.score, 21)) + (if p2.score < 21 then 1 else 0)
  }

  /** Every total in a table of rolls moves the pawn forward. */
  predicate Forward(table: seq<(int, nat)>) {
    forall k :: 0 <= k < |table| ==> table[k].0 >= 1
  }

  /** `p1` after rolling `roll`: it moves on with the truncating `%` and
      scores the space reached. */
  function Branch(p1: Player, roll: int): (b: Player)
    requires Valid(p1) && roll >= 1
    ensures Valid(b) && b.score > p1.score
  {
    var position := Rem(p1.position + roll - 1, 10) + 1;
    Player(position, p1.score + position)
  }

  /** `quantum_turn(p1, p2)`: `p1` is to move and `p2` moved last. The
      result is what the call adds to (`*p1_wins`, `*p2_wins`): the last
      mover wins here if they have 21, else each roll recurses with the
      players and the counters swapped. */
  function Quantum(p1: Player, p2: Player, ways: nat): (r: (nat, nat))
    requires Valid(p1) && Valid(p2)
    decreases Remaining(p1, p2), 1, 0
  {
    if p2.score >= 21 then (0, ways) else QuantumRolls(p1, p2, ways, RollWays)
  }

  /** The `for` loop of `quantum_turn` over the rest `table` of `roll_ways`. */
  function QuantumRolls(p1: Player, p2: Player, ways: nat, table: seq<(int, nat)>): (r: (nat, nat))
    requires Valid(p1) && Valid(p2) && p2.score < 21 && Forward(table)
    decreases Remaining(p1, p2), 0, |table|
  {
    if table == [] then (0, 0)
    else
      var sub := Quantum(p2, Branch(p1, table[0].0), ways * table[0].1);
      var rest := QuantumRolls(p1, p2, ways, table[1..]);
      (rest.0 + sub.1, rest.1 + sub.0)
  }

  lemma MulNonNegative(a: nat, b: nat)
    ensures a * b >= 0
  {
  }

  lemma MulAdd(a: nat, b: nat, c: nat)
    ensures a * b + a * c == a * (b + c)
  {
  }

  lemma MulDistributes(a: nat, b: nat, n: nat)
    ensures (a + b) * n == a * n + b * n
  {
  }

  /** The win counts add up over the universes a call stands for: a call
      with `a + b` counts what the calls with `a` and with `b` count. */
  lemma {:induction false} QuantumAdditive(p1: Player, p2: Player, a: nat, b: nat)
    requires Valid(p1) && Valid(p2)
    ensures Quantum(p1, p2, a + b).0 == Quantum(p1, p2, a).0 + Quantum(p1, p2, b).0
    ensures Quantum(p1, p2, a + b).1 == Quantum(p1, p2, a).1 + Quantum(p1, p2, b).1
    decreases Remaining(p1, p2), 1, 0
  {
    if p2.score < 21 {
      QuantumRollsAdditive(p1, p2, a, b, RollWays);
    }
  }

  lemma {:induction false} QuantumRollsAdditive(p1: Player, p2: Player, a: nat, b: nat, table: seq<(int, nat)>)
    requires Valid(p1) && Valid(p2) && p2.score < 21 && Forward(table)
    ensures QuantumRolls(p1, p2, a + b, table).0 == QuantumRolls(p1, p2, a, table).0 + QuantumRolls(p1, p2, b, table).0
    ensures QuantumRolls(p1, p2, a + b, table).1 == QuantumRolls(p1, p2, a, table).1 + QuantumRolls(p1, p2, b, table).1
    decreases Remaining(p1, p2), 0, |table|
  {
    if table != [] {
      var br, n := Branch(p1, table[0].0), table[0].1;
      MulNonNegative(a, n);
      MulNonNegative(b, n);
      MulDistributes(a, b, n);
      QuantumAdditive(p2, br, a * n, b * n);
      QuantumRollsAdditive(p1, p2, a, b, table[1..]);
    }
  }

  /** A call standing for no universe counts no wins. */
  lemma {:induction false} QuantumZero(p1: Player, p2: Player)
    requires Valid(p1) && Valid(p2)
    ensures Quantum(p1, p2, 0) == (0, 0)
  {
    QuantumAdditive(p1, p2, 0, 0);
  }

  lemma MulSucc(k: nat, q: nat)
    ensures (k + 1) * q == k * q + q
  {
  }

  /** The win counts scale with the number of universes a call stands for:
      a call with `ways` is `ways` copies of the call with 1. */
  lemma {:induction false} QuantumLinear(p1: Player, p2: Player, ways: nat)
    requires Valid(p1) && Valid(p2)
    ensures Quantum(p1, p2, ways).0 == ways * Quantum(p1, p2, 1).0
    ensures Quantum(p1, p2, ways).1 == ways * Quantum(p1, p2, 1).1
    decreases ways
  {
    if ways == 0 {
      QuantumZero(p1, p2);
    } else {
      QuantumLinear(p1, p2, ways - 1);
      QuantumAdditive(p1, p2, ways - 1, 1);
      MulSucc(ways - 1, Quantum(p1, p2, 1).0);
      MulSucc(ways - 1, Quantum(p1, p2, 1).1);
    }
  }

  /** Every universe is won by someone: the two counts together cover at
      least the universes the call stands for. */
  lemma {:induction false} QuantumCoversAll(p1: Player, p2: Player, ways: nat)
    requires Valid(p1) && Valid(p2)
    ensures Quantum(p1, p2, ways).0 + Quantum(p1, p2, ways).1 >= ways
    decreases Remaining(p1, p2), 1, 0
  {
    if p2.score < 21 {
      QuantumRollsCover(p1, p2, ways, RollWays);
      RollWaysAreDiceCounts();
    }
  }

  /** The entries of `table` cover `ways` times their multiplicities. */
  lemma {:induction false} QuantumRollsCover(p1: Player, p2: Player, ways: nat, table: seq<(int, nat)>)
    requires Valid(p1) && Valid(p2) && p2.score < 21 && Forward(table)
    ensures QuantumRolls(p1, p2, ways, table).0 + QuantumRolls(p1, p2, ways, table).1 >= ways * SumWays(table)
    decreases Remaining(p1, p2), 0, |table|
  {
    if table != [] {
      QuantumCoversAll(p2, Branch(p1, table[0].0), ways * table[0].1);
      QuantumRollsCover(p1, p2, ways, table[1..]);
      CoverStep(p1, p2, ways, table);
    }
  }

  /** One entry of the table: its own universes and the rest's. */
  lemma {:induction false} CoverStep(p1: Player, p2: Player, ways: nat, table: seq<(int, nat)>)
    requires Valid(p1) && Valid(p2) && p2.score < 21 && Forward(table) && table != []
    requires var sub := Quantum(p2, Branch(p1, table[0].0), ways * table[0].1);
      sub.0 + sub.1 >= ways * table[0].1
    requires var rest := QuantumRolls(p1, p2, ways, table[1..]);
      rest.0 + rest.1 >= ways * SumWays(table[1..])
    ensures QuantumRolls(p1, p2, ways, table).0 + QuantumRolls(p1, p2, ways, table).1 >= ways * SumWays(table)
  {
    var n := table[0].1;
    MulAdd(ways, n, SumWays(table[1..]));
    assert SumWays(table) == n + SumWays(table[1..]);
  }

  /** `part2`: the larger number of universes won; since every universe
      has a winner, it is at least one. */
  function Part2(players: seq<Player>): (r: nat)
    requires |players| >= 2 && Valid(players[0]) && Valid(players[1])
    ensures var w := Quantum(players[0], players[1], 1);
      r >= w.0 && r >= w.1 && (r == w.0 || r == w.1)
    ensures r >= 1
  {
    var w := Quantum(players[0], players[1], 1);
    QuantumCoversAll(players[0], players[1], 1);
    if w.0 > w.1 then w.0 else w.1
  }
}
