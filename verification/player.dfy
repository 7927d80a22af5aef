/**
 The snake itself: an ordered body of grid cells with the head at the front,
 a heading, and a one-shot growth flag (src/player.rs).
 */
module Snake {

  import opened Ints

  /** A grid cell as (x, y); y grows downwards, as on the terminal. */
  type Cell = (int, int)

  datatype Direction = Up | Down | Left | Right

  datatype Player = Player(body: seq<Cell>, direction: Direction, hasEaten: bool)

  /** The heading that a turn may never switch to directly. */
  function Opposite(d: Direction): Direction
  {
    match d
    case Up => Down
    case Down => Up
    case Left => Right
    case Right => Left
  }

  /** The cell one step away from `c` in direction `d`. */
  function Neighbour(c: Cell, d: Direction): Cell
  {
    match d
    case Up => (c.0, c.1 - 1)
    case Down => (c.0, c.1 + 1)
    case Left => (c.0 - 1, c.1)
    case Right => (c.0 + 1, c.1)
  }

  /** Two cells that share an edge. */
  predicate Adjacent(a: Cell, b: Cell)
  {
    Abs(a.0 - b.0) + Abs(a.1 - b.1) == 1
  }

  /** Consecutive segments share an edge: the body is one unbroken chain. */
  predicate Connected(s: seq<Cell>)
  {
    forall i :: 0 <= i < |s| - 1 ==> Adjacent(s[i], s[i + 1])
  }

  /** No two segments occupy the same cell. */
  predicate Distinct(s: seq<Cell>)
  {
    forall i, j :: 0 <= i < j < |s| ==> s[i] != s[j]
  }

  predicate InGrid(c: Cell, gridSize: int)
  {
    0 <= c.0 < gridSize && 0 <= c.1 < gridSize
  }

  /** The player at the start of a round: five cells on row 1, heading right. */
  function NewPlayer(): (p: Player)
    ensures p.body == [(5, 1), (4, 1), (3, 1), (2, 1), (1, 1)]
    ensures p.direction == Right && !p.hasEaten
    ensures |p.body| == 5 && Connected(p.body) && Distinct(p.body)
    ensures forall d :: Neighbour(p.body[0], d) in p.body <==> d == Opposite(p.direction)
  {
    Player([(5, 1), (4, 1), (3, 1), (2, 1), (1, 1)], Right, false)
  }

  /**
   One step forward: the head advances by the heading's unit offset; the tail
   cell is dropped unless a meal is pending, in which case the flag is used up.
   An empty body is left alone.
   */
  function Move(p: Player): (q: Player)
    ensures |p.body| == 0 ==> q == p
    ensures |p.body| > 0 ==>
      && |q.body| == |p.body| + (if p.hasEaten then 1 else 0)
      && q.body[0] == Neighbour(p.body[0], p.direction)
      && (p.hasEaten ==> q.body[1..] == p.body)
      && (!p.hasEaten ==> q.body[1..] + [p.body[|p.body| - 1]] == p.body)
      && q.direction == p.direction
      && !q.hasEaten
  {
    if |p.body| == 0 then p
    else
      var next := Neighbour(p.body[0], p.direction);
      if !p.hasEaten then
        Player([next] + p.body[..|p.body| - 1], p.direction, p.hasEaten)
      else
        Player([next] + p.body, p.direction, false)
  }

  /** Set the heading unconditionally; only the guarded turns below call it. */
  function Turn(p: Player, d: Direction): (q: Player)
    ensures q.direction == d
    ensures q.body == p.body && q.hasEaten == p.hasEaten
  {
    p.(direction := d)
  }

  function TurnUp(p: Player): (q: Player)
    ensures q.body == p.body && q.hasEaten == p.hasEaten
    ensures q.direction == if p.direction == Opposite(Up) then p.direction else Up
  {
    if p.direction != Down then Turn(p, Up) else p
  }

  function TurnDown(p: Player): (q: Player)
    ensures q.body == p.body && q.hasEaten == p.hasEaten
    ensures q.direction == if p.direction == Opposite(Down) then p.direction else Down
  {
    if p.direction != Up then Turn(p, Down) else p
  }

  function TurnLeft(p: Player): (q: Player)
    ensures q.body == p.body && q.hasEaten == p.hasEaten
    ensures q.direction == if p.direction == Opposite(Left) then p.direction else Left
  {
    if p.direction != Right then Turn(p, Left) else p
  }

  function TurnRight(p: Player): (q: Player)
    ensures q.body == p.body && q.hasEaten == p.hasEaten
    ensures q.direction == if p.direction == Opposite(Right) then p.direction else Right
  {
    if p.direction != Left then Turn(p, Right) else p
  }

  /** The turn requested by a directional key. */
  function TurnToward(p: Player, d: Direction): Player
  {
    match d
    case Up => TurnUp(p)
    case Down => TurnDown(p)
    case Left => TurnLeft(p)
    case Right => TurnRight(p)
  }

  /** The head has left the square [0, gridSize) x [0, gridSize). */
  function OutOfBounds(p: Player, gridSize: int): (r: bool)
    ensures r <==> |p.body| > 0 && !InGrid(p.body[0], gridSize)
  {
    if |p.body| > 0 then
      var head := p.body[0];
      head.0 > gridSize - 1 || head.0 < 0 || head.1 > gridSize - 1 || head.1 < 0
    else
      false
  }

  /** A front-to-back scan for a cell, as the `for` loops of src/player.rs do. */
  function Contains(s: seq<Cell>, c: Cell): (r: bool)
    ensures r <==> c in s
  {
    if |s| == 0 then false
    else if s[0].0 == c.0 && s[0].1 == c.1 then true
    else Contains(s[1..], c)
  }

  /** The head lies on one of the later segments. */
  function CollidesWithSelf(p: Player): (r: bool)
    ensures r <==> |p.body| > 0 && exists i :: 1 <= i < |p.body| && p.body[i] == p.body[0]
  {
    if |p.body| > 0 then
      var rest := p.body[1..];
      assert forall i :: 1 <= i < |p.body| ==> p.body[i] == rest[i - 1];
      Contains(rest, p.body[0])
    else
      false
  }

  /** Some segment lies on (x, y). */
  function Collides(p: Player, x: int, y: int): (r: bool)
    ensures r <==> exists i :: 0 <= i < |p.body| && p.body[i] == (x, y)
  {
    Contains(p.body, (x, y))
  }

  /** Schedule growth for the next move; nothing else changes. */
  function Eat(p: Player): (q: Player)
    ensures q.hasEaten
    ensures q.body == p.body && q.direction == p.direction
  {
    p.(hasEaten := true)
  }

  // ---------------------------------------------------------------------------
  // Properties relating the operations

  /** Whatever key is pressed, a single turn never reverses the heading. */
  lemma NoTurnReverses(p: Player, d: Direction)
    ensures TurnToward(p, d).direction != Opposite(p.direction)
    ensures TurnToward(p, d).body == p.body
    ensures TurnToward(p, d).hasEaten == p.hasEaten
  {
  }

  /** A turn is ignored exactly when it asks for the reverse heading or for the current one. */
  lemma TurnNoOpIff(p: Player, d: Direction)
    ensures TurnToward(p, d) == p <==> d == p.direction || d == Opposite(p.direction)
  {
  }

  /** The new head is always next to the old head and never on it. */
  lemma MoveStepsToNeighbour(p: Player)
    requires |p.body| > 0
    ensures Adjacent(Move(p).body[0], p.body[0])
    ensures Move(p).body[0] != p.body[0]
  {
  }

  /** Moving keeps the body an unbroken chain. */
  lemma MovePreservesConnected(p: Player)
    requires Connected(p.body)
    ensures Connected(Move(p).body)
  {
    if |p.body| > 0 {
      var q := Move(p);
      MoveStepsToNeighbour(p);
      forall i | 0 <= i < |q.body| - 1
        ensures Adjacent(q.body[i], q.body[i + 1])
      {
        if i > 0 {
          assert q.body[i] == p.body[i - 1] && q.body[i + 1] == p.body[i];
        }
      }
    }
  }

  /** If the move did not run the head into the body, the body stays free of overlaps. */
  lemma MovePreservesDistinct(p: Player)
    requires Distinct(p.body)
    requires !CollidesWithSelf(Move(p))
    ensures Distinct(Move(p).body)
  {
    if |p.body| > 0 {
      var q := Move(p);
      forall i, j | 0 <= i < j < |q.body|
        ensures q.body[i] != q.body[j]
      {
        if i > 0 {
          assert q.body[i] == p.body[i - 1] && q.body[j] == p.body[j - 1];
        }
      }
    }
  }

  /**
   When the segments behind the head are all different (which the game keeps),
   the head-only check finds exactly the overlapping bodies.
   */
  lemma SelfCollisionIffOverlap(p: Player)
    requires |p.body| > 0 && Distinct(p.body[1..])
    ensures CollidesWithSelf(p) <==> !Distinct(p.body)
  {
    if !Distinct(p.body) {
      var i, j :| 0 <= i < j < |p.body| && p.body[i] == p.body[j];
    }
  }

  /** Two later segments on one cell do not count as a self-collision. */
  lemma TailOverlapIsNotSelfCollision()
    ensures var p := Player([(0, 0), (1, 0), (1, 0)], Right, false);
      !CollidesWithSelf(p) && !Distinct(p.body)
  {
    var p := Player([(0, 0), (1, 0), (1, 0)], Right, false);
    assert p.body[1] == p.body[2];
  }

  /** Advancing the initial player once shifts the whole body one cell to the right. */
  lemma FirstMoveFromStart()
    ensures Move(NewPlayer()).body == [(6, 1), (5, 1), (4, 1), (3, 1), (2, 1)]
    ensures Move(Eat(NewPlayer())).body == [(6, 1), (5, 1), (4, 1), (3, 1), (2, 1), (1, 1)]
    ensures Move(TurnLeft(NewPlayer())).body[0] == (6, 1)
  {
  }
}
