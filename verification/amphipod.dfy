/** Day 23's amphipod successor generator. A burrow is a 19-cell occupancy
    string: cells 0-10 are the hallway, 11-14 the upper room cells and
    15-18 the lower room cells of the rooms of A, B, C and D. A fixed move
    graph says where an amphipod may step next; `next_states` collects the
    occupancies reachable by moving one amphipod, keeping the cheapest cost
    found for each. */
module Amphipod {
  import opened Wrappers

  const Cells: nat := 19

  /** `state_t`: an occupancy string and the energy spent reaching it. */
  datatype State = State(cells: string, cost: nat)

  /** `==` and `!=` look at the occupancy only (as does the hash). */
  predicate Same(a: State, b: State) {
    a.cells == b.cells
  }

  /** `<` looks at the cost only. */
  predicate Cheaper(a: State, b: State) {
    a.cost < b.cost
  }

  /** Equality is an equivalence blind to cost, and `<` a strict weak order
      blind to occupancy: two states of equal cost are never ordered, even
      when their occupancies differ. */
  lemma StateRelations(a: State, b: State, c: State)
    ensures Same(a, a) && (Same(a, b) ==> Same(b, a))
    ensures Same(a, b) && Same(b, c) ==> Same(a, c)
    ensures a.cells == b.cells && a.cost != b.cost ==> Same(a, b) && a != b
    ensures !Cheaper(a, a) && (Cheaper(a, b) && Cheaper(b, c) ==> Cheaper(a, c))
    ensures !Cheaper(a, b) && !Cheaper(b, a) <==> a.cost == b.cost
  {
  }

  /** `move_t`: a target cell, the number of steps to it, and the only
      amphipod allowed to enter it ('.' when any may). */
  datatype Move = Move(position: nat, cost: nat, restriction: char)

  /** `all_moves`: the moves out of each cell. Cells 2, 4, 6 and 8 (the
      hallway cells in front of the rooms) have no entry, so looking them
      up throws; that is `None` here. */
  function AllMoves(pos: nat): (r: Option<seq<Move>>)
    ensures r.Some? ==> pos < Cells && pos !in {2, 4, 6, 8}
    ensures r.Some? ==> forall i :: 0 <= i < |r.value| ==> r.value[i].position < Cells && r.value[i].cost >= 1
  {
    match pos
    case 0 => Some([Move(1, 1, '.')])
    case 1 => Some([Move(0, 1, '.'), Move(3, 2, '.'), Move(11, 2, 'A')])
    case 3 => Some([Move(1, 2, '.'), Move(5, 2, '.'), Move(11, 2, 'A'), Move(12, 2, 'B')])
    case 5 => Some([Move(3, 2, '.'), Move(7, 2, '.'), Move(12, 2, 'B'), Move(13, 2, 'C')])
    case 7 => Some([Move(5, 2, '.'), Move(9, 2, '.'), Move(13, 2, 'C'), Move(14, 2, 'D')])
    case 9 => Some([Move(7, 2, '.'), Move(10, 1, '.'), Move(14, 2, 'D')])
    case 10 => Some([Move(9, 1, '.')])
    case 11 => Some([Move(1, 2, '.'), Move(3, 2, '.'), Move(15, 1, 'A')])
    case 12 => Some([Move(3, 2, '.'), Move(5, 2, '.'), Move(16, 1, 'B')])
    case 13 => Some([Move(5, 2, '.'), Move(7, 2, '.'), Move(17, 1, 'C')])
    case 14 => Some([Move(7, 2, '.'), Move(9, 2, '.'), Move(18, 1, 'D')])
    case 15 => Some([Move(11, 1, '.')])
    case 16 => Some([Move(12, 1, '.')])
    case 17 => Some([Move(13, 1, '.')])
    case 18 => Some([Move(14, 1, '.')])
    case _ => None
  }

  /** The cost of the first move from `p` to `q`, if there is one. */
  function EdgeCost(p: nat, q: nat): Option<nat> {
    match AllMoves(p)
    case None => None
    case Some(moves) => EdgeCostIn(moves, q)
  }

  function EdgeCostIn(moves: seq<Move>, q: nat): Option<nat> {
    if moves == [] then None
    else if moves[0].position == q then Some(moves[0].cost)
    else EdgeCostIn(moves[1..], q)
  }

  lemma {:induction false} EdgeCostInFinds(moves: seq<Move>, i: nat)
    requires i < |moves|
    ensures EdgeCostIn(moves, moves[i].position).Some?
  {
    if i > 0 && moves[0].position != moves[i].position {
      assert moves[i] == moves[1..][i - 1];
      EdgeCostInFinds(moves[1..], i - 1);
    }
  }

  /** Every move of `moves` from index `k` on, out of `p`, has a move back
      at the same cost, and costs 1 or 2 steps. */
  predicate ReturnsAll(p: nat, moves: seq<Move>, k: nat)
    decreases |moves| - k
  {
    k >= |moves| ||
    (EdgeCost(moves[k].position, p) == Some(moves[k].cost) && moves[k].cost in {1, 2}
     && ReturnsAll(p, moves, k + 1))
  }

  /** `ReturnsAll` for every cell from `p` on. */
  predicate ReturnsFrom(p: nat)
    decreases Cells - p
  {
    p >= Cells || ((AllMoves(p).None? || ReturnsAll(p, AllMoves(p).value, 0)) && ReturnsFrom(p + 1))
  }

  lemma {:induction false} ReturnsAllAt(p: nat, moves: seq<Move>, k: nat, i: nat)
    requires ReturnsAll(p, moves, k) && k <= i < |moves|
    ensures EdgeCost(moves[i].position, p) == Some(moves[i].cost) && moves[i].cost in {1, 2}
    decreases i - k
  {
    if k < i {
      ReturnsAllAt(p, moves, k + 1, i);
    }
  }

  lemma {:induction false} ReturnsFromAt(lo: nat, p: nat)
    requires ReturnsFrom(lo) && lo <= p && AllMoves(p).Some?
    ensures ReturnsAll(p, AllMoves(p).value, 0)
    decreases p - lo
  {
    if lo < p {
      ReturnsFromAt(lo + 1, p);
    }
  }

  lemma ReturnsFromRooms()
    ensures ReturnsFrom(11)
  {
    assert ReturnsFrom(19);
    assert ReturnsAll(18, AllMoves(18).value, 0);
    assert ReturnsFrom(18);
    assert ReturnsAll(17, AllMoves(17).value, 0);
    assert ReturnsFrom(17);
    assert ReturnsAll(16, AllMoves(16).value, 0);
    assert ReturnsFrom(16);
    assert ReturnsAll(15, AllMoves(15).value, 0);
    assert ReturnsFrom(15);
    assert ReturnsAll(14, AllMoves(14).value, 0);
    assert ReturnsFrom(14);
    assert ReturnsAll(13, AllMoves(13).value, 0);
    assert ReturnsFrom(13);
    assert ReturnsAll(12, AllMoves(12).value, 0);
    assert ReturnsFrom(12);
    assert ReturnsAll(11, AllMoves(11).value, 0);
    assert ReturnsFrom(11);
  }

  lemma ReturnsFromHallway()
    ensures ReturnsFrom(0)
  {
    ReturnsFromRooms();
    assert ReturnsAll(10, AllMoves(10).value, 0);
    assert ReturnsFrom(10);
    assert ReturnsAll(9, AllMoves(9).value, 0);
    assert ReturnsFrom(9);
    assert ReturnsFrom(8);
    assert ReturnsAll(7, AllMoves(7).value, 0);
    assert ReturnsFrom(7);
    assert ReturnsFrom(6);
    assert ReturnsAll(5, AllMoves(5).value, 0);
    assert ReturnsFrom(5);
    assert ReturnsFrom(4);
    assert ReturnsAll(3, AllMoves(3).value, 0);
    assert ReturnsFrom(3);
    assert ReturnsFrom(2);
    assert ReturnsAll(1, AllMoves(1).value, 0);
    assert ReturnsFrom(1);
    assert ReturnsAll(0, AllMoves(0).value, 0);
    assert ReturnsFrom(0);
  }

  /** The move graph is symmetric, with equal costs both ways: every move
      has a move back at the same cost. Every step costs 1 or 2. */
  lemma MoveGraphSymmetric(p: nat, i: nat)
    requires AllMoves(p).Some? && i < |AllMoves(p).value|
    ensures var m := AllMoves(p).value[i];
      EdgeCost(m.position, p) == Some(m.cost) && m.cost in {1, 2}
  {
    ReturnsFromHallway();
    ReturnsFromAt(0, p);
    ReturnsAllAt(p, AllMoves(p).value, 0, i);
  }

  /** `amphipod_cost`: the energy per step; `None` for anything but A-D,
      where the lookup throws. */
  function AmphipodCost(c: char): (r: Option<nat>)
    ensures r.Some? <==> c in "ABCD"
    ensures r.Some? ==> r.value >= 1
  {
    match c
    case 'A' => Some(1)
    case 'B' => Some(10)
    case 'C' => Some(100)
    case 'D' => Some(1000)
    case _ => None
  }

  /** `amphipod_home`: the two cells of each amphipod's room. */
  function AmphipodHome(c: char): (r: Option<seq<nat>>)
    ensures r.Some? <==> c in "ABCD"
    ensures r.Some? ==> |r.value| == 2 && r.value[0] + 4 == r.value[1] && 11 <= r.value[0] <= 14
  {
    match c
    case 'A' => Some([11, 15])
    case 'B' => Some([12, 16])
    case 'C' => Some([13, 17])
    case 'D' => Some([14, 18])
    case _ => None
  }

  /** A restricted move always leads into the home room of the amphipod it
      is restricted to. */
  lemma RestrictedMovesEnterHome(p: nat, i: nat)
    requires AllMoves(p).Some? && i < |AllMoves(p).value|
    ensures var m := AllMoves(p).value[i];
      m.restriction == '.' || (AmphipodHome(m.restriction).Some? && m.position in AmphipodHome(m.restriction).value)
  {
  }

  /** The cells of `homes` all hold '.' or `a`, checked one after the other
      as the loop in `room_contains_only` does. */
  function AllClear(cells: string, homes: seq<nat>, a: char): (ok: bool)
    requires forall i :: 0 <= i < |homes| ==> homes[i] < |cells|
    ensures ok <==> forall i :: 0 <= i < |homes| ==> cells[homes[i]] in {'.', a}
  {
    if homes == [] then true
    else if cells[homes[0]] != '.' && cells[homes[0]] != a then false
    else
      assert forall i :: 1 <= i < |homes| ==> homes[i] == homes[1..][i - 1];
      AllClear(cells, homes[1..], a)
  }

  /** `room_contains_only`: `a` is an amphipod and its room holds nothing
      but empty cells and amphipods of its own kind. */
  function RoomContainsOnly(cells: string, a: char): (ok: bool)
    requires |cells| == Cells
    ensures ok <==> a in "ABCD" && var h := AmphipodHome(a).value;
      cells[h[0]] in {'.', a} && cells[h[1]] in {'.', a}
  {
    match AmphipodHome(a)
    case None => false
    case Some(homes) => AllClear(cells, homes, a)
  }

  // ---------------------------------------------------------------------
  // find_amphipods

  /** The occupied cells among `lo .. hi-1`, in increasing order. */
  function Occupied(cells: string, lo: nat, hi: nat): (ps: seq<nat>)
    requires lo <= hi <= |cells|
    ensures forall i :: 0 <= i < |ps| ==> lo <= ps[i] < hi && cells[ps[i]] != '.'
    ensures forall i, j :: 0 <= i < j < |ps| ==> ps[i] < ps[j]
    ensures forall p :: lo <= p < hi && cells[p] != '.' ==> p in ps
    decreases hi - lo
  {
    if lo == hi then []
    else if cells[lo] != '.' then [lo] + Occupied(cells, lo + 1, hi)
    else Occupied(cells, lo + 1, hi)
  }

  lemma {:induction false} OccupiedNone(cells: string, lo: nat, hi: nat)
    requires lo <= hi <= |cells|
    requires forall p :: lo <= p < hi ==> cells[p] == '.'
    ensures Occupied(cells, lo, hi) == []
    decreases hi - lo
  {
    if lo < hi {
      OccupiedNone(cells, lo + 1, hi);
    }
  }

  /** `find_amphipods` as written: it scans the cells 0 to 17 only. */
  function FindAmphipodsAsWritten(cells: string): (ps: seq<nat>)
    requires |cells| == Cells
    ensures forall p: nat :: p in ps <==> p < 18 && cells[p] != '.'
  {
    Occupied(cells, 0, 18)
  }

  /** An amphipod in the lower cell of D's room, cell 18, is never found,
      so `next_states` never moves it. */
  lemma FindAmphipodsMissesLastCell()
    ensures var cells := "..................A";
      |cells| == Cells && cells[18] != '.' && FindAmphipodsAsWritten(cells) == []
  {
    var cells := "..................A";
    OccupiedNone(cells, 0, 18);
  }

  /** `find_amphipods` over every cell, as the burrow's layout calls for. */
  function FindAmphipods(cells: string): (ps: seq<nat>)
    requires |cells| == Cells
    ensures forall p: nat :: p in ps <==> p < Cells && cells[p] != '.'
    ensures forall i, j :: 0 <= i < j < |ps| ==> ps[i] < ps[j]
  {
    Occupied(cells, 0, Cells)
  }

  // ---------------------------------------------------------------------
  // valid_moves

  /** The conditions under which `valid_moves` keeps move `m` for the
      amphipod `a` leaving cell `pos` after arriving from `from`. */
  predicate Allowed(cells: string, a: char, from: nat, m: Move)
    requires |cells| == Cells && m.position < Cells
  {
    && (m.restriction == '.' || (m.restriction == a && RoomContainsOnly(cells, a)))
    && cells[m.position] == '.' && m.position != from
  }

  /** The loop of `valid_moves`: the allowed moves of `moves`, in order. */
  function FilterMoves(cells: string, a: char, from: nat, moves: seq<Move>): (kept: seq<Move>)
    requires |cells| == Cells
    requires forall i :: 0 <= i < |moves| ==> moves[i].position < Cells
    ensures forall m :: m in kept <==> m in moves && Allowed(cells, a, from, m)
    ensures |kept| <= |moves|
  {
    if moves == [] then []
    else
      var rest := FilterMoves(cells, a, from, moves[1..]);
      assert forall m :: m in moves <==> m == moves[0] || m in moves[1..];
      if Allowed(cells, a, from, moves[0]) then [moves[0]] + rest else rest
  }

  /** `valid_moves`: the moves out of `pos` the amphipod there may take;
      `None` where `all_moves.at(pos)` throws. */
  function ValidMoves(cells: string, pos: nat, from: nat): (r: Option<seq<Move>>)
    requires |cells| == Cells && pos < Cells
    ensures r.Some? <==> AllMoves(pos).Some?
    ensures r.Some? ==> forall m :: m in r.value <==> m in AllMoves(pos).value && Allowed(cells, cells[pos], from, m)
    ensures r.Some? ==> forall i :: 0 <= i < |r.value| ==> r.value[i].position < Cells && r.value[i].cost >= 1
  {
    match AllMoves(pos)
    case None => None
    case Some(moves) =>
      var kept := FilterMoves(cells, cells[pos], from, moves);
      assert forall i :: 0 <= i < |kept| ==> kept[i] in moves;
      Some(kept)
  }

  /** A kept move steps along an edge of the graph into an empty cell other
      than the one just left, and enters a room only when it is the mover's
      home and holds no stranger. */
  lemma ValidMoveIsEdge(cells: string, pos: nat, from: nat, m: Move)
    requires |cells| == Cells && pos < Cells
    requires ValidMoves(cells, pos, from).Some? && m in ValidMoves(cells, pos, from).value
    ensures EdgeCost(pos, m.position).Some? && cells[m.position] == '.' && m.position != from
    ensures m.restriction != '.' ==> m.restriction == cells[pos] && RoomContainsOnly(cells, cells[pos])
  {
    var moves := AllMoves(pos).value;
    var i :| 0 <= i < |moves| && moves[i] == m;
    EdgeCostInFinds(moves, i);
  }

  // ---------------------------------------------------------------------
  // Successors

  /** `swap` of two cells. */
  function Swap(cells: string, i: nat, j: nat): (r: string)
    requires i < |cells| && j < |cells|
    ensures |r| == |cells| && r[i] == cells[j] && r[j] == cells[i]
    ensures forall k :: 0 <= k < |cells| && k != i && k != j ==> r[k] == cells[k]
  {
    cells[i := cells[j]][j := cells[i]]
  }

  lemma SwapIsPermutation(cells: string, i: nat, j: nat)
    requires i < |cells| && j < |cells|
    ensures multiset(Swap(cells, i, j)) == multiset(cells)
    ensures Swap(Swap(cells, i, j), i, j) == cells
  {
    var t := cells[i := cells[j]];
    assert multiset(t) == multiset(cells) - multiset{cells[i]} + multiset{cells[j]};
    assert Swap(cells, i, j) == t[j := cells[i]];
  }

  /** The state after the amphipod at `pos` takes move `m`: the two cells
      are swapped and the move's steps are paid at the amphipod's rate;
      `None` when the cell holds no amphipod and the rate lookup throws. */
  function Successor(s: State, pos: nat, m: Move): (r: Option<State>)
    requires |s.cells| == Cells && pos < Cells && m.position < Cells
    ensures r.Some? <==> s.cells[pos] in "ABCD"
    ensures r.Some? ==> r.value.cells == Swap(s.cells, pos, m.position)
    ensures r.Some? ==> r.value.cost == s.cost + AmphipodCost(s.cells[pos]).value * m.cost
  {
    match AmphipodCost(s.cells[pos])
    case None => None
    case Some(rate) => Some(State(Swap(s.cells, pos, m.position), s.cost + rate * m.cost))
  }

  /** A successor keeps the amphipods (only two cells trade places) and
      costs strictly more when the move has steps. */
  lemma SuccessorProperties(s: State, pos: nat, m: Move)
    requires |s.cells| == Cells && pos < Cells && m.position < Cells && m.cost >= 1
    requires Successor(s, pos, m).Some?
    ensures var t := Successor(s, pos, m).value;
      multiset(t.cells) == multiset(s.cells) && t.cost > s.cost
      && t.cells[m.position] == s.cells[pos]
  {
    SwapIsPermutation(s.cells, pos, m.position);
  }

  // ---------------------------------------------------------------------
  // next_states

  /** The set of states found so far, keyed by occupancy as the hash set
      of `state_t` is: one cost per occupancy. */
  type Found = map<string, nat>

  /** Every entry of `found` that is not already in `before` (or got
      cheaper than there) is an arrangement of `s`'s amphipods that costs
      more than `s`; no entry of `before` is lost or made dearer. */
  predicate Extends(before: Found, found: Found, s: State) {
    && (forall k :: k in before ==> k in found && found[k] <= before[k])
    && (forall k :: k in found ==>
          (k in before && found[k] == before[k])
          || (|k| == Cells && multiset(k) == multiset(s.cells) && found[k] > s.cost))
  }

  /** `found` holds `t`'s occupancy at `t`'s cost or cheaper. */
  predicate Holds(found: Found, t: State) {
    t.cells in found && found[t.cells] <= t.cost
  }

  /** Every state that the amphipod at `pos` reaches by one of `moves` is
      held in `found`. */
  predicate HoldsMoves(s: State, pos: nat, moves: seq<Move>, found: Found)
    requires |s.cells| == Cells && pos < Cells
    requires forall i :: 0 <= i < |moves| ==> moves[i].position < Cells
  {
    forall i :: 0 <= i < |moves| ==>
      Successor(s, pos, moves[i]).Some? && Holds(found, Successor(s, pos, moves[i]).value)
  }

  /** Every state that one valid move of an amphipod at a cell of `ps`
      reaches is held in `found`. */
  predicate HoldsFrom(s: State, ps: seq<nat>, found: Found)
    requires |s.cells| == Cells
    requires forall i :: 0 <= i < |ps| ==> ps[i] < Cells
  {
    forall i :: 0 <= i < |ps| ==>
      ValidMoves(s.cells, ps[i], ps[i]).Some?
      && HoldsMoves(s, ps[i], ValidMoves(s.cells, ps[i], ps[i]).value, found)
  }

  lemma HoldsMovesCons(s: State, pos: nat, moves: seq<Move>, found: Found)
    requires |s.cells| == Cells && pos < Cells && moves != []
    requires forall i :: 0 <= i < |moves| ==> moves[i].position < Cells
    requires Successor(s, pos, moves[0]).Some? && Holds(found, Successor(s, pos, moves[0]).value)
    requires HoldsMoves(s, pos, moves[1..], found)
    ensures HoldsMoves(s, pos, moves, found)
  {
    forall i | 1 <= i < |moves|
      ensures Successor(s, pos, moves[i]).Some? && Holds(found, Successor(s, pos, moves[i]).value)
    {
      assert moves[i] == moves[1..][i - 1];
    }
  }

  /** What `found` holds, a later map that extends it holds too. */
  lemma HoldsMovesGrows(s: State, pos: nat, moves: seq<Move>, a: Found, b: Found, t: State)
    requires |s.cells| == Cells && pos < Cells
    requires forall i :: 0 <= i < |moves| ==> moves[i].position < Cells
    requires HoldsMoves(s, pos, moves, a) && Extends(a, b, t)
    ensures HoldsMoves(s, pos, moves, b)
  {
  }

  lemma HoldsFromCons(s: State, ps: seq<nat>, a: Found, b: Found)
    requires |s.cells| == Cells && ps != []
    requires forall i :: 0 <= i < |ps| ==> ps[i] < Cells
    requires ValidMoves(s.cells, ps[0], ps[0]).Some?
    requires HoldsMoves(s, ps[0], ValidMoves(s.cells, ps[0], ps[0]).value, a) && Extends(a, b, s)
    requires HoldsFrom(s, ps[1..], b)
    ensures HoldsFrom(s, ps, b)
  {
    HoldsMovesGrows(s, ps[0], ValidMoves(s.cells, ps[0], ps[0]).value, a, b, s);
    forall i | 1 <= i < |ps|
      ensures ValidMoves(s.cells, ps[i], ps[i]).Some?
        && HoldsMoves(s, ps[i], ValidMoves(s.cells, ps[i], ps[i]).value, b)
    {
      assert ps[i] == ps[1..][i - 1];
    }
  }

  /** A valid move takes an amphipod into an empty cell, so its successor
      differs from the start, and dropping the start keeps what is held. */
  lemma HoldsMovesWithoutStart(s: State, pos: nat, found: Found)
    requires |s.cells| == Cells && pos < Cells
    requires ValidMoves(s.cells, pos, pos).Some?
    requires HoldsMoves(s, pos, ValidMoves(s.cells, pos, pos).value, found)
    ensures HoldsMoves(s, pos, ValidMoves(s.cells, pos, pos).value, found - {s.cells})
  {
    var moves := ValidMoves(s.cells, pos, pos).value;
    forall i | 0 <= i < |moves|
      ensures Holds(found - {s.cells}, Successor(s, pos, moves[i]).value)
    {
      ValidMoveIsEdge(s.cells, pos, pos, moves[i]);
      var t := Successor(s, pos, moves[i]).value;
      assert t.cells[pos] == '.' != s.cells[pos];
    }
  }

  lemma HoldsFromWithoutStart(s: State, ps: seq<nat>, found: Found)
    requires |s.cells| == Cells
    requires forall i :: 0 <= i < |ps| ==> ps[i] < Cells
    requires HoldsFrom(s, ps, found)
    ensures HoldsFrom(s, ps, found - {s.cells})
  {
    forall i | 0 <= i < |ps|
      ensures HoldsMoves(s, ps[i], ValidMoves(s.cells, ps[i], ps[i]).value, found - {s.cells})
    {
      HoldsMovesWithoutStart(s, ps[i], found);
    }
  }

  lemma ExtendsTrans(a: Found, b: Found, c: Found, s: State, t: State)
    requires Extends(a, b, s) && Extends(b, c, t)
    requires multiset(t.cells) == multiset(s.cells) && t.cost >= s.cost
    ensures Extends(a, c, s)
  {
  }

  lemma ExtendsThen(a: Found, b: Found, r: Option<Found>, s: State)
    requires Extends(a, b, s) && (r.Some? ==> Extends(b, r.value, s))
    ensures r.Some? ==> Extends(a, r.value, s)
  {
    if r.Some? {
      ExtendsTrans(a, b, r.value, s, s);
    }
  }

  /** The recursive `next_states(state, pos, from, states)`: try each valid
      move of the amphipod at `pos`; a successor whose occupancy is new or
      was found at a higher cost is recorded and explored further, never
      stepping straight back. The recursion ends only because costs
      strictly improve; `fuel` bounds its depth and `None` means it ran out
      (or that a lookup threw). */
  function NextStatesFrom(s: State, pos: nat, from: nat, found: Found, fuel: nat): (r: Option<Found>)
    requires |s.cells| == Cells && pos < Cells
    ensures r.Some? ==> Extends(found, r.value, s)
    ensures r.Some? ==>
      ValidMoves(s.cells, pos, from).Some? && HoldsMoves(s, pos, ValidMoves(s.cells, pos, from).value, r.value)
    decreases fuel, 1, 0
  {
    match ValidMoves(s.cells, pos, from)
    case None => None
    case Some(moves) =>
      assert forall i :: 0 <= i < |moves| ==> moves[i] in AllMoves(pos).value;
      TryMoves(s, pos, moves, found, fuel)
  }

  /** The loop over the valid moves. */
  function TryMoves(s: State, pos: nat, moves: seq<Move>, found: Found, fuel: nat): (r: Option<Found>)
    requires |s.cells| == Cells && pos < Cells
    requires forall i :: 0 <= i < |moves| ==> moves[i].position < Cells && moves[i].cost >= 1
    ensures r.Some? ==> Extends(found, r.value, s)
    ensures r.Some? ==> HoldsMoves(s, pos, moves, r.value)
    decreases fuel, 0, |moves|
  {
    if moves == [] then Some(found)
    else
      var m := moves[0];
      match Successor(s, pos, m)
      case None => None
      case Some(t) =>
        SuccessorProperties(s, pos, m);
        match Visit(s, t, m.position, pos, found, fuel)
        case None => None
        case Some(found') =>
          var r := TryMoves(s, pos, moves[1..], found', fuel);
          ExtendsThen(found, found', r, s);
          if r.None? then None
          else
            HoldsMovesCons(s, pos, moves, r.value);
            r
  }

  /** One successor `t` of `s`, reached at cell `at` from `pos`: recorded
      and explored further when its occupancy is new or was found at a
      higher cost, otherwise ignored. */
  function Visit(s: State, t: State, at: nat, pos: nat, found: Found, fuel: nat): (r: Option<Found>)
    requires |t.cells| == Cells && at < Cells
    requires multiset(t.cells) == multiset(s.cells) && t.cost > s.cost
    ensures r.Some? ==> Extends(found, r.value, s)
    ensures r.Some? ==> t.cells in r.value && r.value[t.cells] <= t.cost
    decreases fuel, 0, 0
  {
    if t.cells !in found || found[t.cells] > t.cost then
      if fuel == 0 then None
      else
        var found' := found[t.cells := t.cost];
        var r := NextStatesFrom(t, at, pos, found', fuel - 1);
        assert Extends(found, found', s);
        if r.None? then None
        else
          ExtendsTrans(found, found', r.value, s, t);
          r
    else Some(found)
  }

  /** The loop of the top-level `next_states` over the amphipods found. */
  function FromEach(s: State, ps: seq<nat>, found: Found, fuel: nat): (r: Option<Found>)
    requires |s.cells| == Cells
    requires forall i :: 0 <= i < |ps| ==> ps[i] < Cells
    ensures r.Some? ==> Extends(found, r.value, s)
    ensures r.Some? ==> HoldsFrom(s, ps, r.value)
  {
    if ps == [] then Some(found)
    else
      match NextStatesFrom(s, ps[0], ps[0], found, fuel)
      case None => None
      case Some(found') =>
        var r := FromEach(s, ps[1..], found', fuel);
        ExtendsThen(found, found', r, s);
        if r.None? then None
        else
          HoldsFromCons(s, ps, found', r.value);
          r
  }

  /** `next_states(state)`: the states reached by moving any one amphipod,
      each at the cheapest cost found, without the starting occupancy. In
      particular every state one valid move away is among them, at its
      cost or cheaper. */
  function NextStates(s: State, fuel: nat): (r: Option<Found>)
    requires |s.cells| == Cells
    ensures r.Some? ==> s.cells !in r.value
    ensures r.Some? ==> forall k :: k in r.value ==>
      |k| == Cells && multiset(k) == multiset(s.cells) && r.value[k] > s.cost
    ensures r.Some? ==> forall p :: p in FindAmphipods(s.cells) ==>
      ValidMoves(s.cells, p, p).Some? && HoldsMoves(s, p, ValidMoves(s.cells, p, p).value, r.value)
  {
    var ps := FindAmphipods(s.cells);
    match FromEach(s, ps, map[], fuel)
    case None => None
    case Some(found) =>
      HoldsFromWithoutStart(s, ps, found);
      assert forall p :: p in ps ==> exists i :: 0 <= i < |ps| && ps[i] == p;
      Some(found - {s.cells})
  }
}
