/**
 One tick of the game loop and apple placement (src/game.rs). The clock, the
 frame sleep and drawing are not modelled; the random pick among free cells is
 the caller-supplied `choice`.
 */
module Game {

  import opened Wrappers
  import Snake

  /** The controller's latched key (src/controller.rs is not part of this model). */
  datatype Key = Up | Down | Left | Right | Quit

  datatype GameState = GameState(
    running: bool,
    score: nat,
    player: Snake.Player,
    gridSize: int,
    apple: Option<Snake.Cell>)

  /** Why a tick ended the way it did. */
  datatype Outcome =
    | Halted      // the loop saw `running == false` at its top and broke
    | RoundOver   // the moved head left the grid or ran into the body
    | Continue    // the tick ran to completion

  datatype Tick = Tick(state: GameState, outcome: Outcome)

  function NewGame(gridSize: int): (s: GameState)
    ensures s.running && s.score == 0 && s.apple == None
    ensures s.gridSize == gridSize
    ensures s.player == Snake.NewPlayer()
  {
    GameState(true, 0, Snake.NewPlayer(), gridSize, None)
  }

  /** The heading a directional key asks for. */
  function KeyDirection(key: Key): Snake.Direction
    requires key != Quit
  {
    match key
    case Up => Snake.Up
    case Down => Snake.Down
    case Left => Snake.Left
    case Right => Snake.Right
  }

  /** Quit clears `running` and turns nothing; any other key requests its turn. */
  function HandleInput(s: GameState, key: Key): (r: GameState)
    ensures key == Quit ==> !r.running && r.player == s.player
    ensures key != Quit ==> r.running == s.running && r.player.body == s.player.body
    ensures key != Quit ==> r.player == Snake.TurnToward(s.player, KeyDirection(key))
    ensures r.player.direction != Snake.Opposite(s.player.direction)
    ensures r.player.hasEaten == s.player.hasEaten
    ensures r.score == s.score && r.gridSize == s.gridSize && r.apple == s.apple
  {
    match key
    case Quit => s.(running := false)
    case Up => s.(player := Snake.TurnUp(s.player))
    case Down => s.(player := Snake.TurnDown(s.player))
    case Left => s.(player := Snake.TurnLeft(s.player))
    case Right => s.(player := Snake.TurnRight(s.player))
  }

  /** The cells (x, y), ..., (x, gridSize - 1). */
  function Column(x: int, y: int, gridSize: int): (r: seq<Snake.Cell>)
    ensures forall c :: c in r <==> c.0 == x && y <= c.1 < gridSize
    decreases gridSize - y
  {
    if y >= gridSize then [] else [(x, y)] + Column(x, y + 1, gridSize)
  }

  /** Every cell with first coordinate in [x, gridSize), column by column. */
  function Columns(x: int, gridSize: int): (r: seq<Snake.Cell>)
    ensures forall c :: c in r <==> x <= c.0 < gridSize && 0 <= c.1 < gridSize
    decreases gridSize - x
  {
    if x >= gridSize then [] else Column(x, 0, gridSize) + Columns(x + 1, gridSize)
  }

  /** The cells of `cells` not in `occupied`, in their original order. */
  function Unoccupied(cells: seq<Snake.Cell>, occupied: seq<Snake.Cell>): (r: seq<Snake.Cell>)
    ensures forall c :: c in r <==> c in cells && c !in occupied
    ensures |r| <= |cells|
  {
    if |cells| == 0 then []
    else if cells[0] in occupied then Unoccupied(cells[1..], occupied)
    else [cells[0]] + Unoccupied(cells[1..], occupied)
  }

  /** The grid cells the body does not cover. */
  function FreeCells(body: seq<Snake.Cell>, gridSize: int): (r: seq<Snake.Cell>)
    ensures forall c :: c in r <==> Snake.InGrid(c, gridSize) && c !in body
  {
    Unoccupied(Columns(0, gridSize), body)
  }

  /** With every grid cell under the body there is nowhere to put an apple. */
  lemma FullGridHasNoFreeCell(body: seq<Snake.Cell>, gridSize: int)
    requires forall c :: Snake.InGrid(c, gridSize) ==> c in body
    ensures FreeCells(body, gridSize) == []
  {
    AllOccupied(Columns(0, gridSize), body);
  }

  lemma {:induction false} AllOccupied(cells: seq<Snake.Cell>, occupied: seq<Snake.Cell>)
    requires forall c :: c in cells ==> c in occupied
    ensures Unoccupied(cells, occupied) == []
  {
    if |cells| > 0 {
      assert cells[0] in cells;
      AllOccupied(cells[1..], occupied);
    }
  }

  /** The cells of a sequence, as a set. */
  function CellSet(s: seq<Snake.Cell>): set<Snake.Cell>
  {
    set c | c in s
  }

  lemma {:induction false} CellSetBound(s: seq<Snake.Cell>)
    ensures |CellSet(s)| <= |s|
    ensures Snake.Distinct(s) ==> |CellSet(s)| == |s|
  {
    if |s| > 0 {
      CellSetBound(s[1..]);
      assert CellSet(s) == {s[0]} + CellSet(s[1..]);
      if Snake.Distinct(s) {
        assert Snake.Distinct(s[1..]);
        assert s[0] !in CellSet(s[1..]);
      }
    } else {
      assert CellSet(s) == {};
    }
  }

  lemma {:induction false} ColumnLength(x: int, y: int, gridSize: int)
    requires 0 <= y <= gridSize
    ensures |Column(x, y, gridSize)| == gridSize - y
    decreases gridSize - y
  {
    if y < gridSize {
      ColumnLength(x, y + 1, gridSize);
    }
  }

  lemma SubsetOfSameSize(a: set<Snake.Cell>, b: set<Snake.Cell>)
    requires a <= b && |b| <= |a|
    ensures a == b
  {
    assert b == a + (b - a);
    assert |b| == |a| + |b - a|;
  }

  /** The scan of the grid visits gridSize * gridSize cells. */
  lemma {:induction false} ColumnsLength(x: int, gridSize: int)
    requires 0 <= x <= gridSize
    ensures |Columns(x, gridSize)| == (gridSize - x) * gridSize
    decreases gridSize - x
  {
    if x < gridSize {
      ColumnLength(x, 0, gridSize);
      ColumnsLength(x + 1, gridSize);
      assert (gridSize - x) * gridSize == gridSize + (gridSize - (x + 1)) * gridSize;
    }
  }

  /**
   A body of gridSize * gridSize distinct cells, all on the grid, covers the
   grid, so there is no free cell for an apple.
   */
  lemma FullBodyHasNoFreeCell(body: seq<Snake.Cell>, gridSize: int)
    requires 0 <= gridSize
    requires Snake.Distinct(body)
    requires forall c :: c in body ==> Snake.InGrid(c, gridSize)
    requires |body| == gridSize * gridSize
    ensures FreeCells(body, gridSize) == []
  {
    var grid := CellSet(Columns(0, gridSize));
    var occupied := CellSet(body);
    CellSetBound(body);
    CellSetBound(Columns(0, gridSize));
    ColumnsLength(0, gridSize);
    SubsetOfSameSize(occupied, grid);
    forall c | Snake.InGrid(c, gridSize)
      ensures c in body
    {
      assert c in grid;
    }
    FullGridHasNoFreeCell(body, gridSize);
  }

  /** `choice` is what the random pick may return: an index of a free cell, if there is one. */
  predicate ValidChoice(free: seq<Snake.Cell>, choice: nat)
  {
    |free| == 0 || choice < |free|
  }

  /** Put the apple on the chosen free cell; with no free cell, leave it as it was. */
  function SpawnApple(s: GameState, choice: nat): (r: GameState)
    requires ValidChoice(FreeCells(s.player.body, s.gridSize), choice)
    ensures r.running == s.running && r.score == s.score
    ensures r.player == s.player && r.gridSize == s.gridSize
    ensures FreeCells(s.player.body, s.gridSize) == [] ==> r.apple == s.apple
    ensures FreeCells(s.player.body, s.gridSize) != [] ==>
      r.apple == Some(FreeCells(s.player.body, s.gridSize)[choice])
    ensures FreeCells(s.player.body, s.gridSize) != [] ==>
      && r.apple.Some?
      && Snake.InGrid(r.apple.value, s.gridSize)
      && r.apple.value !in s.player.body
  {
    var free := FreeCells(s.player.body, s.gridSize);
    if |free| > 0 then s.(apple := Some(free[choice])) else s
  }

  /** The state after reading the key and moving the player. */
  function Moved(s: GameState, key: Key): GameState
  {
    var t := HandleInput(s, key);
    t.(player := Snake.Move(t.player))
  }

  /** The round ends when the head is off the grid or on the body. */
  predicate Ends(s: GameState)
  {
    Snake.OutOfBounds(s.player, s.gridSize) || Snake.CollidesWithSelf(s.player)
  }

  /** Eating: if the apple is under the body, schedule growth and clear the apple. */
  function EatApple(s: GameState): (r: GameState)
    ensures r.player.body == s.player.body
    ensures r.running == s.running && r.score == s.score && r.gridSize == s.gridSize
    ensures r.apple.Some? ==> r.apple == s.apple && r.apple.value !in s.player.body
    ensures s.apple.Some? && s.apple.value in s.player.body ==> r.apple == None && r.player.hasEaten
    ensures !(s.apple.Some? && s.apple.value in s.player.body) ==> r == s
    ensures r.player.direction == s.player.direction
  {
    match s.apple
    case Some(pos) =>
      if Snake.Collides(s.player, pos.0, pos.1) then
        s.(player := Snake.Eat(s.player), apple := None)
      else
        s
    case None => s
  }

  /**
   One pass through the body of the game loop: the top-of-loop exit test,
   input, move, the termination test, eating and respawning the apple.
   */
  function Step(s: GameState, key: Key, choice: nat): (t: Tick)
    requires ValidChoice(FreeCells(Moved(s, key).player.body, s.gridSize), choice)
    ensures t.outcome == Halted <==> !s.running
    ensures t.outcome == Halted ==> t.state == s
    ensures t.state.score == s.score && t.state.gridSize == s.gridSize
    ensures t.outcome == RoundOver ==> Ends(t.state)
    ensures t.outcome == Continue ==> !Ends(t.state)
  {
    if !s.running then
      Tick(s, Halted)
    else
      var m := Moved(s, key);
      if Snake.OutOfBounds(m.player, m.gridSize) || Snake.CollidesWithSelf(m.player) then
        Tick(m, RoundOver)
      else
        var e := EatApple(m);
        var a := if e.apple.None? then SpawnApple(e, choice) else e;
        Tick(a, Continue)
  }

  // ---------------------------------------------------------------------------
  // Ordering facts about a tick

  /** A quit read this tick still lets the player move. */
  lemma QuitStillMoves(s: GameState, choice: nat)
    requires s.running
    requires ValidChoice(FreeCells(Moved(s, Quit).player.body, s.gridSize), choice)
    ensures var t := Step(s, Quit, choice);
      && t.outcome != Halted
      && !t.state.running
      && t.state.player.body == Snake.Move(s.player).body
      && t.state.player.direction == s.player.direction
  {
  }

  /** After a tick that read Quit and went on, the next tick stops at the top of the loop. */
  lemma QuitHaltsNextTick(s: GameState, choice: nat, key: Key, choice': nat)
    requires ValidChoice(FreeCells(Moved(s, Quit).player.body, s.gridSize), choice)
    requires var t := Step(s, Quit, choice);
      ValidChoice(FreeCells(Moved(t.state, key).player.body, t.state.gridSize), choice')
    ensures var t := Step(s, Quit, choice);
      Step(t.state, key, choice') == Tick(t.state, Halted)
  {
  }

  /**
   Every tick that gets past the top of the loop leaves the player turned by
   the key and then moved, with `running` as the key left it. A continuing
   tick that eats nothing schedules no growth, keeps an apple the moved body
   missed, and otherwise places one on the chosen free cell.
   */
  lemma StepTurnsThenMoves(s: GameState, key: Key, choice: nat)
    requires s.running
    requires ValidChoice(FreeCells(Moved(s, key).player.body, s.gridSize), choice)
    ensures var t := Step(s, key, choice);
      var h := HandleInput(s, key);
      && t.outcome != Halted
      && t.state.player.body == Snake.Move(h.player).body
      && t.state.player.direction == h.player.direction
      && t.state.running == h.running
    ensures var t := Step(s, key, choice);
      var free := FreeCells(Moved(s, key).player.body, s.gridSize);
      t.outcome == Continue && !(s.apple.Some? && s.apple.value in Moved(s, key).player.body) ==>
        && t.state.player == Snake.Move(HandleInput(s, key).player)
        && t.state.apple == (if s.apple.Some? then s.apple else if |free| > 0 then Some(free[choice]) else None)
  {
  }

  /** A tick that ends the round does so before touching the apple. */
  lemma EndBeforeApple(s: GameState, key: Key, choice: nat)
    requires ValidChoice(FreeCells(Moved(s, key).player.body, s.gridSize), choice)
    requires Step(s, key, choice).outcome == RoundOver
    ensures Step(s, key, choice).state == Moved(s, key)
    ensures Step(s, key, choice).state.apple == s.apple
    ensures !Step(s, key, choice).state.player.hasEaten
  {
  }

  /** An apple under the moved body is eaten, and the same tick respawns it. */
  lemma EatingRespawns(s: GameState, key: Key, choice: nat)
    requires ValidChoice(FreeCells(Moved(s, key).player.body, s.gridSize), choice)
    requires Step(s, key, choice).outcome == Continue
    requires s.apple.Some? && s.apple.value in Moved(s, key).player.body
    ensures var t := Step(s, key, choice);
      var free := FreeCells(Moved(s, key).player.body, s.gridSize);
      && t.state.player.hasEaten
      && t.state.player.body == Moved(s, key).player.body
      && t.state.apple == (if |free| > 0 then Some(free[choice]) else None)
  {
  }

  /**
   After a tick that goes on, the apple is never on the body, and it is absent
   only when no free cell is left.
   */
  lemma AppleOffBody(s: GameState, key: Key, choice: nat)
    requires ValidChoice(FreeCells(Moved(s, key).player.body, s.gridSize), choice)
    requires Step(s, key, choice).outcome == Continue
    ensures var t := Step(s, key, choice).state;
      && (t.apple.Some? ==> t.apple.value !in t.player.body)
      && (t.apple.None? ==> FreeCells(t.player.body, t.gridSize) == [])
  {
  }

  // ---------------------------------------------------------------------------
  // The round invariant

  /**
   What holds of every state the loop reaches: a non-empty, unbroken,
   non-overlapping body inside the grid, and an apple, if any, on a free
   cell of the grid.
   */
  predicate Good(s: GameState)
  {
    && |s.player.body| > 0
    && Snake.Connected(s.player.body)
    && Snake.Distinct(s.player.body)
    && (forall c :: c in s.player.body ==> Snake.InGrid(c, s.gridSize))
    && (s.apple.Some? ==> Snake.InGrid(s.apple.value, s.gridSize) && s.apple.value !in s.player.body)
  }

  /** A new game on a grid wide enough for the starting body starts in a good state. */
  lemma NewGameGood(gridSize: int)
    requires gridSize >= 6
    ensures Good(NewGame(gridSize))
  {
  }

  /** The starting body does not fit on a smaller grid: the first tick ends the round. */
  lemma SmallGridEndsAtOnce(gridSize: int, key: Key, choice: nat)
    requires gridSize <= 6
    requires ValidChoice(FreeCells(Moved(NewGame(gridSize), key).player.body, gridSize), choice)
    ensures key != Down && key != Up ==> Step(NewGame(gridSize), key, choice).outcome == RoundOver
  {
  }

  /** Every tick that goes on keeps the round invariant. */
  lemma StepPreservesGood(s: GameState, key: Key, choice: nat)
    requires Good(s)
    requires ValidChoice(FreeCells(Moved(s, key).player.body, s.gridSize), choice)
    requires Step(s, key, choice).outcome == Continue
    ensures Good(Step(s, key, choice).state)
  {
    var h := HandleInput(s, key);
    var m := Moved(s, key);
    Snake.MovePreservesConnected(h.player);
    Snake.MovePreservesDistinct(h.player);
    assert forall c :: c in m.player.body[1..] ==> c in s.player.body;
    assert m.player.body == [m.player.body[0]] + m.player.body[1..];
  }
}
