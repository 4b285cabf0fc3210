/** Giant Squid bingo (day 4). A board is a list of rows; `add_cols` appends
    every column as one more row, so a board has won as soon as any of its
    rows is empty. Drawing a number erases it from every row. The scores
    are the sum of the distinct numbers left on the winning board times the
    number just drawn. */
module Bingo {
  import opened Wrappers

  type Row = seq<nat>
  type Board = seq<Row>

  // ---------------------------------------------------------------------
  // Rows and boards

  /** `erase_if(row, n == number)`: every `number` goes, the rest stays in
      order. */
  function Erase(row: Row, number: nat): (r: Row)
    ensures |r| <= |row|
  {
    if row == [] then []
    else (if row[0] == number then [] else [row[0]]) + Erase(row[1..], number)
  }

  /** Exactly the entries other than `number` survive. */
  lemma {:induction false} EraseKeeps(row: Row, number: nat, x: nat)
    ensures x in Erase(row, number) <==> x in row && x != number
  {
    if row != [] {
      EraseKeeps(row[1..], number, x);
      assert row == [row[0]] + row[1..];
    }
  }

  /** Erasing works piecewise, so the order of the kept entries is the
      order they had. */
  lemma {:induction false} EraseAppend(a: Row, b: Row, number: nat)
    ensures Erase(a + b, number) == Erase(a, number) + Erase(b, number)
  {
    if a == [] {
      assert a + b == b;
    } else {
      assert (a + b)[0] == a[0] && (a + b)[1..] == a[1..] + b;
      EraseAppend(a[1..], b, number);
    }
  }

  /** A row without the number is left alone. */
  lemma {:induction false} EraseAbsent(row: Row, number: nat)
    requires number !in row
    ensures Erase(row, number) == row
  {
    if row != [] {
      EraseAbsent(row[1..], number);
      assert row == [row[0]] + row[1..];
    }
  }

  predicate Won(board: Board) {
    exists i :: 0 <= i < |board| && board[i] == []
  }

  /** `remove_number`: erase the number from every row; the flag says
      whether some row is empty afterwards. */
  function RemoveNumber(board: Board, number: nat): (r: (Board, bool))
    ensures |r.0| == |board|
    ensures forall i :: 0 <= i < |board| ==> r.0[i] == Erase(board[i], number)
    ensures r.1 <==> Won(r.0)
  {
    if board == [] then ([], false)
    else
      var row := Erase(board[0], number);
      var rest := RemoveNumber(board[1..], number);
      assert forall i :: 1 <= i < |board| ==> ([row] + rest.0)[i] == rest.0[i - 1];
      ([row] + rest.0, row == [] || rest.1)
  }

  /** The entries of the board row after row. */
  function Flat(board: Board): Row {
    if board == [] then [] else board[0] + Flat(board[1..])
  }

  /** The values of a row, each once. */
  ghost function Elems(xs: Row): set<nat> {
    set x | x in xs
  }

  /** Every number on the board, each once. */
  ghost function Numbers(board: Board): set<nat> {
    Elems(Flat(board))
  }

  lemma {:induction false} NumbersAre(board: Board, x: nat)
    ensures x in Numbers(board) <==> exists i :: 0 <= i < |board| && x in board[i]
  {
    if board != [] {
      NumbersAre(board[1..], x);
      if x in Numbers(board[1..]) {
        var i :| 0 <= i < |board[1..]| && x in board[1..][i];
        assert x in board[i + 1];
      }
      if exists i :: 0 <= i < |board| && x in board[i] {
        var i :| 0 <= i < |board| && x in board[i];
        if i > 0 { assert x in board[1..][i - 1]; }
      }
    }
  }

  /** Removing a number takes exactly that number out of the board. */
  lemma RemoveNumberNumbers(board: Board, number: nat)
    ensures Numbers(RemoveNumber(board, number).0) == Numbers(board) - {number}
  {
    var after := RemoveNumber(board, number).0;
    forall x ensures x in Numbers(after) <==> x in Numbers(board) && x != number {
      NumbersAre(after, x);
      NumbersAre(board, x);
      forall i | 0 <= i < |board| ensures x in after[i] <==> x in board[i] && x != number {
        EraseKeeps(board[i], number, x);
      }
    }
  }

  /** A non-empty set of naturals has a least element. */
  lemma {:induction false} HasLeast(s: set<nat>, y: nat)
    requires y in s
    ensures exists x :: x in s && forall z :: z in s ==> x <= z
    decreases y
  {
    if !forall z :: z in s ==> y <= z {
      var z :| z in s && z < y;
      HasLeast(s, z);
    }
  }

  /** The least element of a non-empty set. */
  ghost function Least(s: set<nat>): (x: nat)
    requires s != {}
    ensures x in s && forall z :: z in s ==> x <= z
  {
    var y :| y in s;
    HasLeast(s, y);
    var x :| x in s && forall z :: z in s ==> x <= z;
    x
  }

  /** The sum of a set of numbers, smallest first. */
  ghost function SetSum(s: set<nat>): nat
    decreases s
  {
    if s == {} then 0 else Least(s) + SetSum(s - {Least(s)})
  }

  /** The sum does not depend on the element taken first. */
  lemma {:induction false} SetSumRemove(s: set<nat>, y: nat)
    requires y in s
    ensures SetSum(s) == y + SetSum(s - {y})
    decreases s
  {
    var x := Least(s);
    if x != y {
      SetSumRemove(s - {x}, y);
      SetSumRemove(s - {y}, x);
      assert s - {x} - {y} == s - {y} - {x};
    }
  }

  /** Each value of `xs` once, at its last occurrence. */
  function SumDistinct(xs: Row): nat {
    if xs == [] then 0 else (if xs[0] in xs[1..] then 0 else xs[0]) + SumDistinct(xs[1..])
  }

  lemma {:induction false} SumDistinctIsSetSum(xs: Row)
    ensures SumDistinct(xs) == SetSum(Elems(xs))
  {
    if xs != [] {
      var t := xs[1..];
      SumDistinctIsSetSum(t);
      var all, rest := Elems(xs), Elems(t);
      assert forall x :: x in all <==> x == xs[0] || x in rest by {
        assert xs == [xs[0]] + t;
      }
      if xs[0] in t {
        assert all == rest;
      } else {
        SetSumRemove(all, xs[0]);
        assert all - {xs[0]} == rest;
      }
    }
  }

  /** `board_score`: the numbers left on the board are gathered into a set
      and added up. */
  function BoardScore(board: Board): nat {
    SumDistinct(Flat(board))
  }

  /** The answer for a board that has just won: its score times the
      number that completed it. */
  function Score(board: Board, number: nat): nat {
    BoardScore(board) * number
  }

  /** The score is the sum of the distinct numbers left on the board. */
  lemma BoardScoreIsSetSum(board: Board)
    ensures BoardScore(board) == SetSum(Numbers(board))
  {
    SumDistinctIsSetSum(Flat(board));
  }

  /** Drawing a number on the board lowers the score by exactly that
      number; drawing one that is not there changes nothing. */
  lemma ScoreAfterRemove(board: Board, number: nat)
    ensures BoardScore(RemoveNumber(board, number).0)
      == BoardScore(board) - (if number in Numbers(board) then number else 0)
  {
    RemoveNumberNumbers(board, number);
    BoardScoreIsSetSum(board);
    BoardScoreIsSetSum(RemoveNumber(board, number).0);
    if number in Numbers(board) {
      SetSumRemove(Numbers(board), number);
    } else {
      assert Numbers(board) - {number} == Numbers(board);
    }
  }

  /** Each row is at least as long as the board has rows. */
  predicate Square(board: Board) {
    forall i :: 0 <= i < |board| ==> |board[i]| >= |board|
  }

  /** `add_cols`: one more row per column `c`, holding entry `c` of every
      row in order. */
  function AddCols(board: Board): (r: Board)
    requires Square(board)
    ensures |r| == 2 * |board| && r[..|board|] == board
    ensures forall j :: |board| <= j < |r| ==>
      (|r[j]| == |board| && forall k :: 0 <= k < |board| ==> |board[k]| >= |board| && r[j][k] == board[k][j - |board|])
  {
    board + seq(|board|, c requires 0 <= c < |board| => seq(|board|, k requires 0 <= k < |board| => board[k][c]))
  }

  // ---------------------------------------------------------------------
  // Draws

  /** A row after erasing every number drawn so far. */
  function EraseAll(row: Row, drawn: seq<nat>): Row {
    if drawn == [] then row else Erase(EraseAll(row, drawn[..|drawn| - 1]), drawn[|drawn| - 1])
  }

  lemma {:induction false} EraseAllKeeps(row: Row, drawn: seq<nat>, x: nat)
    ensures x in EraseAll(row, drawn) <==> x in row && x !in drawn
  {
    if drawn != [] {
      var d := drawn[..|drawn| - 1];
      EraseAllKeeps(row, d, x);
      EraseKeeps(EraseAll(row, d), drawn[|drawn| - 1], x);
      assert drawn == d + [drawn[|drawn| - 1]];
    }
  }

  /** A row is used up exactly when each of its entries has been drawn. */
  lemma EraseAllEmpty(row: Row, drawn: seq<nat>)
    ensures EraseAll(row, drawn) == [] <==> forall j :: 0 <= j < |row| ==> row[j] in drawn
  {
    if EraseAll(row, drawn) != [] {
      EraseAllKeeps(row, drawn, EraseAll(row, drawn)[0]);
    }
    forall j | 0 <= j < |row| && row[j] !in drawn
      ensures EraseAll(row, drawn) != []
    {
      EraseAllKeeps(row, drawn, row[j]);
    }
  }

  /** A board after every number drawn so far. */
  function RemoveAll(board: Board, drawn: seq<nat>): (r: Board)
    ensures |r| == |board|
  {
    if drawn == [] then board else RemoveNumber(RemoveAll(board, drawn[..|drawn| - 1]), drawn[|drawn| - 1]).0
  }

  lemma {:induction false} RemoveAllRows(board: Board, drawn: seq<nat>)
    ensures forall i :: 0 <= i < |board| ==> RemoveAll(board, drawn)[i] == EraseAll(board[i], drawn)
  {
    if drawn != [] {
      RemoveAllRows(board, drawn[..|drawn| - 1]);
    }
  }

  /** Bingo as the puzzle states it: some row or some column of the board
      has been drawn completely. */
  predicate BingoWins(board: Board, drawn: seq<nat>)
    requires Square(board)
  {
    || (exists r :: 0 <= r < |board| && RowDrawn(board, r, drawn))
    || (exists c :: 0 <= c < |board| && ColumnDrawn(board, c, drawn))
  }

  predicate RowDrawn(board: Board, r: nat, drawn: seq<nat>)
    requires r < |board|
  {
    forall c :: 0 <= c < |board[r]| ==> board[r][c] in drawn
  }

  predicate ColumnDrawn(board: Board, c: nat, drawn: seq<nat>)
    requires Square(board) && c < |board|
  {
    forall r :: 0 <= r < |board| ==> board[r][c] in drawn
  }

  /** Row `i` of a board is used up exactly when all its entries are drawn. */
  lemma RowUsedUp(board: Board, drawn: seq<nat>, i: nat)
    requires i < |board|
    ensures RemoveAll(board, drawn)[i] == [] <==> forall j :: 0 <= j < |board[i]| ==> board[i][j] in drawn
  {
    RemoveAllRows(board, drawn);
    EraseAllEmpty(board[i], drawn);
  }

  /** With the columns added, an empty row is exactly a bingo. */
  lemma EmptyRowIsBingo(board: Board, drawn: seq<nat>)
    requires Square(board)
    ensures Won(RemoveAll(AddCols(board), drawn)) <==> BingoWins(board, drawn)
  {
    if Won(RemoveAll(AddCols(board), drawn)) {
      EmptyRowMeansBingo(board, drawn);
    }
    if BingoWins(board, drawn) {
      BingoMeansEmptyRow(board, drawn);
    }
  }

  lemma EmptyRowMeansBingo(board: Board, drawn: seq<nat>)
    requires Square(board) && Won(RemoveAll(AddCols(board), drawn))
    ensures BingoWins(board, drawn)
  {
    var full := AddCols(board);
    var i :| 0 <= i < |full| && RemoveAll(full, drawn)[i] == [];
    RowUsedUp(full, drawn, i);
    if i < |board| {
      UsedUpRow(board, drawn, i, full[i]);
    } else {
      UsedUpColumn(board, drawn, i - |board|, full[i]);
    }
  }

  lemma {:induction false} UsedUpRow(board: Board, drawn: seq<nat>, i: nat, row: seq<nat>)
    requires Square(board) && i < |board| && row == AddCols(board)[i]
    requires forall j :: 0 <= j < |row| ==> row[j] in drawn
    ensures RowDrawn(board, i, drawn)
  {
    var full := AddCols(board);
    assert full[i] == full[..|board|][i] == board[i];
  }

  lemma {:induction false} UsedUpColumn(board: Board, drawn: seq<nat>, c: nat, col: seq<nat>)
    requires Square(board) && c < |board| && col == AddCols(board)[|board| + c]
    requires forall j :: 0 <= j < |col| ==> col[j] in drawn
    ensures ColumnDrawn(board, c, drawn)
  {
    forall r | 0 <= r < |board| ensures board[r][c] in drawn {
      assert board[r][c] == col[r];
    }
  }

  lemma BingoMeansEmptyRow(board: Board, drawn: seq<nat>)
    requires Square(board) && BingoWins(board, drawn)
    ensures Won(RemoveAll(AddCols(board), drawn))
  {
    var full, n := AddCols(board), |board|;
    if exists r :: 0 <= r < n && RowDrawn(board, r, drawn) {
      var r :| 0 <= r < n && RowDrawn(board, r, drawn);
      assert full[r] == full[..n][r] == board[r];
      RowUsedUp(full, drawn, r);
    } else {
      var c :| 0 <= c < n && ColumnDrawn(board, c, drawn);
      RowUsedUp(full, drawn, n + c);
      assert forall j :: 0 <= j < |full[n + c]| ==> full[n + c][j] == board[j][c];
    }
  }

  lemma RemoveAllStep(board: Board, numbers: seq<nat>, t: nat)
    requires t < |numbers|
    ensures RemoveAll(board, numbers[..t + 1]) == RemoveNumber(RemoveAll(board, numbers[..t]), numbers[t]).0
  {
    assert numbers[..t + 1][..t] == numbers[..t];
  }

  // ---------------------------------------------------------------------
  // Part 1: the first board to win

  /** The inner loop of `part1` for one number: each board is updated in
      turn and the first winner ends the search with its score. */
  function Draw(number: nat, boards: seq<Board>): (r: (Option<nat>, seq<Board>))
    ensures r.0.None? ==> |r.1| == |boards|
  {
    if boards == [] then (None, [])
    else
      var removed := RemoveNumber(boards[0], number);
      if removed.1 then (Some(Score(removed.0, number)), boards)
      else
        var rest := Draw(number, boards[1..]);
        (rest.0, [removed.0] + rest.1)
  }

  /** `Draw` finds nothing exactly when the number makes no board a winner,
      and then it has updated all of them. */
  lemma {:induction false} DrawNone(number: nat, boards: seq<Board>)
    ensures Draw(number, boards).0.None? <==> forall k :: 0 <= k < |boards| ==> !Won(RemoveNumber(boards[k], number).0)
    ensures Draw(number, boards).0.None? ==>
      forall k :: 0 <= k < |boards| ==> Draw(number, boards).1[k] == RemoveNumber(boards[k], number).0
  {
    if boards != [] {
      DrawNone(number, boards[1..]);
      assert forall k :: 1 <= k < |boards| ==> boards[1..][k - 1] == boards[k];
    }
  }

  /** `Draw` answers for the first board that the number makes a winner. */
  lemma {:induction false} DrawFirst(number: nat, boards: seq<Board>, k: nat)
    requires k < |boards| && Won(RemoveNumber(boards[k], number).0)
    requires forall k' :: 0 <= k' < k ==> !Won(RemoveNumber(boards[k'], number).0)
    ensures Draw(number, boards).0 == Some(Score(RemoveNumber(boards[k], number).0, number))
  {
    if k > 0 {
      assert forall k' :: 0 <= k' < k - 1 ==> boards[1..][k'] == boards[k' + 1];
      DrawFirst(number, boards[1..], k - 1);
    }
  }

  /** The outer loop of `part1` from draw `s` on, with the boards as they
      stand after the earlier draws. */
  function Play1(numbers: seq<nat>, s: nat, boards: seq<Board>): nat
    requires s <= |numbers|
    decreases |numbers| - s
  {
    if s == |numbers| then 0
    else
      var d := Draw(numbers[s], boards);
      match d.0
      case Some(v) => v
      case None => Play1(numbers, s + 1, d.1)
  }

  function Part1(numbers: seq<nat>, boards: seq<Board>): nat {
    Play1(numbers, 0, boards)
  }

  /** Board `k` wins on draw `t` (0-based). */
  predicate WinsAt(boards: seq<Board>, numbers: seq<nat>, k: nat, t: nat)
    requires k < |boards| && t < |numbers|
  {
    Won(RemoveAll(boards[k], numbers[..t + 1]))
  }

  /** Every board after the first `s` draws. */
  function AllAfter(boards: seq<Board>, numbers: seq<nat>, s: nat): (r: seq<Board>)
    requires s <= |numbers|
    ensures |r| == |boards|
  {
    seq(|boards|, k requires 0 <= k < |boards| => RemoveAll(boards[k], numbers[..s]))
  }

  lemma AfterStep(numbers: seq<nat>, boards: seq<Board>, s: nat)
    requires s < |numbers|
    ensures forall k :: 0 <= k < |boards| ==>
      RemoveNumber(AllAfter(boards, numbers, s)[k], numbers[s]).0 == RemoveAll(boards[k], numbers[..s + 1])
  {
    forall k | 0 <= k < |boards|
      ensures RemoveNumber(AllAfter(boards, numbers, s)[k], numbers[s]).0 == RemoveAll(boards[k], numbers[..s + 1])
    {
      RemoveAllStep(boards[k], numbers, s);
    }
  }

  /** Draw `s` of `part1` in terms of the original boards: no answer exactly
      when no board wins on it ... */
  lemma DrawStepNone(numbers: seq<nat>, boards: seq<Board>, s: nat)
    requires s < |numbers|
    ensures Draw(numbers[s], AllAfter(boards, numbers, s)).0.None?
      <==> forall k :: 0 <= k < |boards| ==> !WinsAt(boards, numbers, k, s)
  {
    var cur := AllAfter(boards, numbers, s);
    AfterStep(numbers, boards, s);
    DrawNone(numbers[s], cur);
    assert forall k :: 0 <= k < |boards| ==>
      (WinsAt(boards, numbers, k, s) <==> Won(RemoveNumber(cur[k], numbers[s]).0));
  }

  /** ... and then it leaves the boards as they are after it. */
  lemma DrawStepRest(numbers: seq<nat>, boards: seq<Board>, s: nat)
    requires s < |numbers|
    requires Draw(numbers[s], AllAfter(boards, numbers, s)).0.None?
    ensures Draw(numbers[s], AllAfter(boards, numbers, s)).1 == AllAfter(boards, numbers, s + 1)
  {
    var cur := AllAfter(boards, numbers, s);
    var next := AllAfter(boards, numbers, s + 1);
    AfterStep(numbers, boards, s);
    DrawNone(numbers[s], cur);
    var d := Draw(numbers[s], cur).1;
    assert |d| == |next|;
    forall k | 0 <= k < |d| ensures d[k] == next[k] {
      assert d[k] == RemoveNumber(cur[k], numbers[s]).0;
    }
  }

  /** Draw `s` of `part1` answers for the first board that wins on it. */
  lemma DrawStepFirst(numbers: seq<nat>, boards: seq<Board>, s: nat, k: nat)
    requires s < |numbers| && k < |boards| && WinsAt(boards, numbers, k, s)
    requires forall k' :: 0 <= k' < k ==> !WinsAt(boards, numbers, k', s)
    ensures Draw(numbers[s], AllAfter(boards, numbers, s)).0
      == Some(Score(RemoveAll(boards[k], numbers[..s + 1]), numbers[s]))
  {
    var cur := AllAfter(boards, numbers, s);
    AfterStep(numbers, boards, s);
    assert Won(RemoveNumber(cur[k], numbers[s]).0);
    forall k' | 0 <= k' < k ensures !Won(RemoveNumber(cur[k'], numbers[s]).0) {
      assert !WinsAt(boards, numbers, k', s);
    }
    DrawFirst(numbers[s], cur, k);
  }

  lemma {:induction false} Play1FindsFirst(numbers: seq<nat>, boards: seq<Board>, s: nat, t: nat, k: nat)
    requires s <= t < |numbers| && k < |boards|
    requires WinsAt(boards, numbers, k, t)
    requires forall t', k' :: s <= t' < t && 0 <= k' < |boards| ==> !WinsAt(boards, numbers, k', t')
    requires forall k' :: 0 <= k' < k ==> !WinsAt(boards, numbers, k', t)
    ensures Play1(numbers, s, AllAfter(boards, numbers, s))
      == Score(RemoveAll(boards[k], numbers[..t + 1]), numbers[t])
    decreases t - s
  {
    if s < t {
      DrawStepNone(numbers, boards, s);
      assert forall k' :: 0 <= k' < |boards| ==> !WinsAt(boards, numbers, k', s);
      DrawStepRest(numbers, boards, s);
      Play1FindsFirst(numbers, boards, s + 1, t, k);
    } else {
      DrawStepFirst(numbers, boards, s, k);
    }
  }

  /** `part1` scores the first board to win, taking the boards in order
      within a draw. */
  lemma Part1FirstWinner(numbers: seq<nat>, boards: seq<Board>, t: nat, k: nat)
    requires t < |numbers| && k < |boards|
    requires WinsAt(boards, numbers, k, t)
    requires forall t', k' :: 0 <= t' < t && 0 <= k' < |boards| ==> !WinsAt(boards, numbers, k', t')
    requires forall k' :: 0 <= k' < k ==> !WinsAt(boards, numbers, k', t)
    ensures Part1(numbers, boards) == Score(RemoveAll(boards[k], numbers[..t + 1]), numbers[t])
  {
    assert AllAfter(boards, numbers, 0) == boards;
    Play1FindsFirst(numbers, boards, 0, t, k);
  }

  lemma {:induction false} Play1NoWinner(numbers: seq<nat>, boards: seq<Board>, s: nat)
    requires s <= |numbers|
    requires forall t, k :: s <= t < |numbers| && 0 <= k < |boards| ==> !WinsAt(boards, numbers, k, t)
    ensures Play1(numbers, s, AllAfter(boards, numbers, s)) == 0
    decreases |numbers| - s
  {
    if s < |numbers| {
      DrawStepNone(numbers, boards, s);
      assert forall k :: 0 <= k < |boards| ==> !WinsAt(boards, numbers, k, s);
      DrawStepRest(numbers, boards, s);
      Play1NoWinner(numbers, boards, s + 1);
    }
  }

  /** Without a winner `part1` answers 0. */
  lemma Part1NoWinner(numbers: seq<nat>, boards: seq<Board>)
    requires forall t, k :: 0 <= t < |numbers| && 0 <= k < |boards| ==> !WinsAt(boards, numbers, k, t)
    ensures Part1(numbers, boards) == 0
  {
    assert AllAfter(boards, numbers, 0) == boards;
    Play1NoWinner(numbers, boards, 0);
  }

  // ---------------------------------------------------------------------
  // Part 2: the last board to win

  /** The inner loop of `part2`: the updated boards that did not win. */
  function Keep(active: seq<Board>, number: nat): seq<Board> {
    if active == [] then []
    else
      var removed := RemoveNumber(active[0], number);
      (if removed.1 then [] else [removed.0]) + Keep(active[1..], number)
  }

  /** The outer loop of `part2` from draw `s` on. It answers when the one
      board still in play wins. */
  function Play2(numbers: seq<nat>, s: nat, active: seq<Board>): nat
    requires s <= |numbers|
    decreases |numbers| - s
  {
    if s == |numbers| then 0
    else
      var next := Keep(active, numbers[s]);
      if |next| == 0 && |active| == 1 then Score(RemoveNumber(active[0], numbers[s]).0, numbers[s])
      else Play2(numbers, s + 1, next)
  }

  function Part2(numbers: seq<nat>, boards: seq<Board>): nat {
    Play2(numbers, 0, boards)
  }

  /** The original boards that have not won after `drawn`, in order. */
  function NotWon(boards: seq<Board>, drawn: seq<nat>): (r: seq<Board>)
    ensures |r| <= |boards|
  {
    if boards == [] then []
    else (if Won(RemoveAll(boards[0], drawn)) then [] else [boards[0]]) + NotWon(boards[1..], drawn)
  }

  /** The original boards still in play after `t` draws: every board at the
      start, then those that have not won on any draw so far. */
  function InPlay(boards: seq<Board>, numbers: seq<nat>, t: nat): seq<Board>
    requires t <= |numbers|
  {
    if t == 0 then boards
    else
      var u: nat := t - 1;
      NotWon(InPlay(boards, numbers, u), numbers[..t])
  }

  /** The answer read off the original boards: the first draw `t` at which
      exactly one board is in play and it wins. */
  function LastWinner(boards: seq<Board>, numbers: seq<nat>, t: nat): nat
    requires t <= |numbers|
    decreases |numbers| - t
  {
    if t == |numbers| then 0
    else
      var live := InPlay(boards, numbers, t);
      if |live| == 1 && |InPlay(boards, numbers, t + 1)| == 0 then
        Score(RemoveAll(live[0], numbers[..t + 1]), numbers[t])
      else LastWinner(boards, numbers, t + 1)
  }

  function After(bs: seq<Board>, drawn: seq<nat>): (r: seq<Board>)
    ensures |r| == |bs|
  {
    seq(|bs|, i requires 0 <= i < |bs| => RemoveAll(bs[i], drawn))
  }

  lemma AfterAppend(a: seq<Board>, b: seq<Board>, drawn: seq<nat>)
    ensures After(a + b, drawn) == After(a, drawn) + After(b, drawn)
  {
  }

  lemma InPlayUnfold(boards: seq<Board>, numbers: seq<nat>, t: nat)
    requires t < |numbers|
    ensures InPlay(boards, numbers, t + 1) == NotWon(InPlay(boards, numbers, t), numbers[..t + 1])
  {
  }

  /** One draw of the `part2` loop keeps exactly the boards that have not
      won, updated by the draw. */
  lemma {:induction false} KeepIsNotWon(bs: seq<Board>, numbers: seq<nat>, t: nat)
    requires t < |numbers|
    ensures Keep(After(bs, numbers[..t]), numbers[t]) == After(NotWon(bs, numbers[..t + 1]), numbers[..t + 1])
  {
    assert numbers[..t + 1] == numbers[..t] + [numbers[t]];
    KeepAfter(bs, numbers[..t], numbers[t]);
  }

  lemma {:induction false} KeepAfter(bs: seq<Board>, drawn: seq<nat>, number: nat)
    ensures Keep(After(bs, drawn), number) == After(NotWon(bs, drawn + [number]), drawn + [number])
  {
    if bs == [] {
      assert After(bs, drawn) == [];
    } else {
      KeepAfter(bs[1..], drawn, number);
      KeepAfterCons(bs, drawn, number);
    }
  }

  lemma {:induction false} KeepAfterCons(bs: seq<Board>, drawn: seq<nat>, number: nat)
    requires bs != []
    requires Keep(After(bs[1..], drawn), number) == After(NotWon(bs[1..], drawn + [number]), drawn + [number])
    ensures Keep(After(bs, drawn), number) == After(NotWon(bs, drawn + [number]), drawn + [number])
  {
    var next := drawn + [number];
    var cur := After(bs, drawn);
    var removed := RemoveNumber(RemoveAll(bs[0], drawn), number);
    var head := if Won(RemoveAll(bs[0], next)) then [] else [bs[0]];
    var tail := NotWon(bs[1..], next);
    calc {
      Keep(cur, number);
      { AfterTail(bs, drawn); }
      (if removed.1 then [] else [removed.0]) + Keep(After(bs[1..], drawn), number);
      (if removed.1 then [] else [removed.0]) + After(tail, next);
      { RemoveAllSnoc(bs[0], drawn, number); }
      After(head, next) + After(tail, next);
      { AfterAppend(head, tail, next); }
      After(head + tail, next);
    }
  }

  lemma {:induction false} AfterTail(bs: seq<Board>, drawn: seq<nat>)
    requires bs != []
    ensures After(bs, drawn)[0] == RemoveAll(bs[0], drawn)
    ensures After(bs, drawn)[1..] == After(bs[1..], drawn)
  {
  }

  lemma {:induction false} RemoveAllSnoc(board: Board, drawn: seq<nat>, number: nat)
    ensures RemoveAll(board, drawn + [number]) == RemoveNumber(RemoveAll(board, drawn), number).0
  {
    assert (drawn + [number])[..|drawn|] == drawn;
  }

  lemma {:induction false} Play2IsLastWinner(boards: seq<Board>, numbers: seq<nat>, s: nat)
    requires s <= |numbers|
    ensures Play2(numbers, s, After(InPlay(boards, numbers, s), numbers[..s])) == LastWinner(boards, numbers, s)
    decreases |numbers| - s
  {
    if s < |numbers| {
      Play2IsLastWinner(boards, numbers, s + 1);
      Play2Step(boards, numbers, s);
    }
  }

  /** One draw of `part2` against one step of the reference. */
  lemma {:induction false} Play2Step(boards: seq<Board>, numbers: seq<nat>, s: nat)
    requires s < |numbers|
    requires Play2(numbers, s + 1, After(InPlay(boards, numbers, s + 1), numbers[..s + 1]))
      == LastWinner(boards, numbers, s + 1)
    ensures Play2(numbers, s, After(InPlay(boards, numbers, s), numbers[..s])) == LastWinner(boards, numbers, s)
  {
    var live := InPlay(boards, numbers, s);
    KeepIsNotWon(live, numbers, s);
    InPlayUnfold(boards, numbers, s);
    if |live| == 1 {
      RemoveAllStep(live[0], numbers, s);
    }
  }

  /** `part2` drops each board once it wins and scores the board that wins
      while it is the only one still in play. */
  lemma Part2IsLastWinner(numbers: seq<nat>, boards: seq<Board>)
    ensures Part2(numbers, boards) == LastWinner(boards, numbers, 0)
  {
    assert After(boards, numbers[..0]) == boards;
    Play2IsLastWinner(boards, numbers, 0);
  }
}
