/** The per-frame rule engine of the game: the direction-key guard, the
    move/collision/growth step and food placement. */
module Snake {
  import opened Grid

  /** The play state of one session: the body (head first), the heading,
      the food cell, the score and whether the snake is still alive. */
  datatype State = State(snake: seq<Cell>, direction: Cell, food: Cell, score: nat, alive: bool)

  predicate Distinct(s: seq<Cell>) {
    forall i, j :: 0 <= i < j < |s| ==> s[i] != s[j]
  }

  predicate AllInGrid(s: seq<Cell>) {
    forall i :: 0 <= i < |s| ==> InGrid(s[i])
  }

  /** What holds of a live game: a non-empty body of distinct on-board
      cells, and food on the board but not under the snake. */
  predicate WellFormed(g: State) {
    |g.snake| > 0 && Distinct(g.snake) && AllInGrid(g.snake) && InGrid(g.food) && g.food !in g.snake
  }

  /** Some board cell is not covered by s. */
  ghost predicate HasFreeCell(s: seq<Cell>) {
    exists c :: InGrid(c) && c !in s
  }

  // ---------------------------------------------------------------------
  // Initial state
  // ---------------------------------------------------------------------

  /** Three cells in a column from the board's centre downward, head first. */
  function InitialSnake(): (s: seq<Cell>)
    ensures |s| == 3 && s[0] == (GridW / 2, GridH / 2)
    ensures forall i :: 0 < i < |s| ==> s[i] == Offset(s[i - 1], Down)
    ensures Distinct(s) && AllInGrid(s)
  {
    [(GridW / 2, GridH / 2), (GridW / 2, GridH / 2 + 1), (GridW / 2, GridH / 2 + 2)]
  }

  /** The start state: alive, heading up, no points, three cells long. */
  function Initial(food: Cell): (r: State)
    ensures r.alive && r.score == 0 && r.direction == Up && r.food == food
    ensures |r.snake| == 3 + r.score && Distinct(r.snake) && AllInGrid(r.snake)
  {
    State(InitialSnake(), Up, food, 0, true)
  }

  /** The start state is well formed for any food placed on a free cell. */
  lemma InitialWellFormed(food: Cell)
    requires InGrid(food) && food !in InitialSnake()
    ensures WellFormed(Initial(food))
    ensures |Initial(food).snake| == 3 && Initial(food).snake[0] == (GridW / 2, GridH / 2)
  {
  }

  // ---------------------------------------------------------------------
  // Direction keys
  // ---------------------------------------------------------------------

  /** The direction keys (W/Up arrow, S/Down arrow, A/Left arrow,
      D/Right arrow) and every other key, which the guard ignores. */
  datatype Key = KeyUp | KeyDown | KeyLeft | KeyRight | OtherKey

  /** One key against the current heading: the requested heading unless
      it is the exact opposite of the current one. */
  function Steer(direction: Cell, key: Key): (r: Cell)
    ensures key == OtherKey ==> r == direction
    ensures key != OtherKey ==> r == (if Requested(key) == Negate(direction) then direction else Requested(key))
  {
    match key
    case KeyUp => if direction != Down then Up else direction
    case KeyDown => if direction != Up then Down else direction
    case KeyLeft => if direction != Right then Left else direction
    case KeyRight => if direction != Left then Right else direction
    case OtherKey => direction
  }

  function Requested(key: Key): Cell
    requires key != OtherKey
  {
    match key
    case KeyUp => Up
    case KeyDown => Down
    case KeyLeft => Left
    case KeyRight => Right
  }

  /** The guard, stated against the negation of the current heading: a
      direction key is taken exactly when it does not reverse the heading. */
  lemma SteerAcceptsUnlessReverse(direction: Cell, key: Key)
    requires key != OtherKey
    ensures Steer(direction, key) == Requested(key) <==> Requested(key) != Negate(direction)
    ensures Requested(key) == Negate(direction) ==> Steer(direction, key) == direction
  {
  }

  /** From a heading, one key never turns the snake right round. */
  lemma SteerNeverReverses(direction: Cell, key: Key)
    requires IsHeading(direction)
    ensures IsHeading(Steer(direction, key))
    ensures Steer(direction, key) != Negate(direction)
  {
  }

  /** The keys of one frame, applied one at a time, each against the
      heading the earlier keys left. */
  function SteerAll(direction: Cell, keys: seq<Key>): (r: Cell)
    ensures IsHeading(direction) ==> IsHeading(r)
    ensures (forall i :: 0 <= i < |keys| ==> keys[i] == OtherKey) ==> r == direction
    decreases |keys|
  {
    if |keys| == 0 then direction
    else Steer(SteerAll(direction, keys[..|keys| - 1]), keys[|keys| - 1])
  }

  /** The state the keys of one frame leave: a live game takes the new
      heading, a dead one ignores the keys. */
  function Steered(g: State, keys: seq<Key>): (r: State)
    ensures r.snake == g.snake && r.food == g.food && r.score == g.score && r.alive == g.alive
    ensures !g.alive ==> r.direction == g.direction
  {
    if g.alive then g.(direction := SteerAll(g.direction, keys)) else g
  }

  /** Because the guard compares each key with the heading the previous key
      set, two keys in one frame can reverse the snake: Left then Down
      turns an upward snake downward. */
  lemma SteerAllCanReverse()
    ensures SteerAll(Up, [KeyLeft, KeyDown]) == Down == Negate(Up)
  {
    assert [KeyLeft, KeyDown][..1] == [KeyLeft];
    assert [KeyLeft][..0] == [];
  }

  /** A single reversing key is ignored. */
  lemma SingleReverseIgnored()
    ensures SteerAll(Up, [KeyDown]) == Up
  {
    assert [KeyDown][..0] == [];
  }

  // ---------------------------------------------------------------------
  // The move step
  // ---------------------------------------------------------------------

  /** The head the live snake moves to from g. */
  function NewHead(g: State, policy: Policy): Cell
    requires |g.snake| > 0
  {
    NextHead(policy, g.snake[0], g.direction)
  }

  /** The step eats: the snake is alive, its new head is not on its body
      and lands on the food. */
  predicate Eats(g: State, policy: Policy)
    requires |g.snake| > 0
  {
    g.alive && NewHead(g, policy) !in g.snake && NewHead(g, policy) == g.food
  }

  /** Food can be re-placed whenever the step eats: a board cell is left
      free beside the grown snake. */
  ghost predicate FoodPlaceable(g: State, policy: Policy)
    requires |g.snake| > 0
  {
    Eats(g, policy) ==> HasFreeCell([NewHead(g, policy)] + g.snake)
  }

  /** One move step. `placed` is the cell the food is re-placed on if the
      snake eats (the random choice, passed in). The wall check only clears
      `alive`; the collision and move still run afterwards. */
  function Step(g: State, policy: Policy, placed: Cell): (r: State)
    requires |g.snake| > 0
    ensures |r.snake| > 0
    ensures r.alive ==> g.alive
    ensures r.direction == g.direction
    ensures r.score == g.score || r.score == g.score + 1
    ensures |r.snake| - |g.snake| == r.score - g.score
  {
    if !g.alive then g
    else
      var h := NewHead(g, policy);
      var alive := !HitsWall(policy, g.snake[0], g.direction);
      if h in g.snake then g.(alive := false)
      else if h == g.food then g.(snake := [h] + g.snake, food := placed, score := g.score + 1, alive := alive)
      else g.(snake := [h] + g.snake[..|g.snake| - 1], alive := alive)
  }

  /** A dead game no longer changes. */
  lemma DeadIsFrozen(g: State, policy: Policy, placed: Cell)
    requires |g.snake| > 0 && !g.alive
    ensures Step(g, policy, placed) == g
  {
  }

  /** Under Wrap the new head is the wrapped neighbour, on the board, and
      the snake never dies of the boundary. */
  lemma WrapMove(g: State, placed: Cell)
    requires |g.snake| > 0 && g.alive
    requires NewHead(g, Wrap) !in g.snake
    ensures Step(g, Wrap, placed).alive
    ensures Step(g, Wrap, placed).snake[0] == WrapCell(Offset(g.snake[0], g.direction))
    ensures InGrid(Step(g, Wrap, placed).snake[0])
  {
  }

  /** Under Wall, leaving the board kills the snake, keeps score and food,
      and still moves it: the off-board cell becomes the head and the tail
      cell is dropped. */
  lemma WallDeath(g: State, placed: Cell)
    requires WellFormed(g) && g.alive
    requires !InGrid(Offset(g.snake[0], g.direction))
    ensures var r := Step(g, Wall, placed);
      && !r.alive
      && r.score == g.score
      && r.food == g.food
      && r.snake == [Offset(g.snake[0], g.direction)] + g.snake[..|g.snake| - 1]
      && |r.snake| == |g.snake|
  {
  }

  /** Running into any current segment, the tail cell included, kills the
      snake and leaves body, food and score as they were. */
  lemma SelfCollision(g: State, policy: Policy, placed: Cell)
    requires |g.snake| > 0 && g.alive
    requires NewHead(g, policy) in g.snake
    ensures Step(g, policy, placed) == g.(alive := false)
  {
  }

  /** A move that neither collides nor eats: the head is prepended, the
      tail dropped; length, score and food are kept. */
  lemma PlainMove(g: State, policy: Policy, placed: Cell)
    requires |g.snake| > 0 && g.alive
    requires NewHead(g, policy) !in g.snake && NewHead(g, policy) != g.food
    ensures var r := Step(g, policy, placed);
      && r.snake == [NewHead(g, policy)] + g.snake[..|g.snake| - 1]
      && |r.snake| == |g.snake|
      && r.score == g.score
      && r.food == g.food
      && r.alive == !HitsWall(policy, g.snake[0], g.direction)
  {
  }

  /** An eating move: the head is prepended and nothing dropped, the score
      goes up by one and the food moves to the placed cell. */
  lemma Growth(g: State, policy: Policy, placed: Cell)
    requires |g.snake| > 0 && Eats(g, policy)
    ensures var r := Step(g, policy, placed);
      && r.snake == [g.food] + g.snake
      && |r.snake| == |g.snake| + 1
      && r.score == g.score + 1
      && r.food == placed
      && r.alive == !HitsWall(policy, g.snake[0], g.direction)
  {
  }

  /** The example of one upward move on the 30 x 20 board. */
  lemma FirstMoveUp(food: Cell, policy: Policy)
    requires food != (15, 9)
    ensures Step(Initial(food), policy, food) == Initial(food).(snake := [(15, 9), (15, 10), (15, 11)])
  {
  }

  lemma DistinctPrepend(h: Cell, s: seq<Cell>)
    requires Distinct(s) && h !in s
    ensures Distinct([h] + s)
  {
    var t := [h] + s;
    forall i, j | 0 <= i < j < |t| ensures t[i] != t[j] {
      if i == 0 {
        assert t[j] == s[j - 1];
      } else {
        assert t[i] == s[i - 1] && t[j] == s[j - 1];
      }
    }
  }

  /** A step that leaves the snake alive keeps the game well formed,
      provided re-placed food lands on a free board cell. */
  lemma StepPreservesWellFormed(g: State, policy: Policy, placed: Cell)
    requires WellFormed(g)
    requires Step(g, policy, placed).alive
    requires Eats(g, policy) ==> InGrid(placed) && placed !in [NewHead(g, policy)] + g.snake
    ensures WellFormed(Step(g, policy, placed))
  {
    var h := NewHead(g, policy);
    assert h !in g.snake;
    assert InGrid(h);
    var r := Step(g, policy, placed);
    if h == g.food {
      DistinctPrepend(h, g.snake);
    } else {
      var body := g.snake[..|g.snake| - 1];
      assert Distinct(body) by {
        forall i, j | 0 <= i < j < |body| ensures body[i] != body[j] {
          assert body[i] == g.snake[i] && body[j] == g.snake[j];
        }
      }
      assert h !in body;
      DistinctPrepend(h, body);
      assert r.snake == [h] + body;
      assert g.food !in r.snake;
    }
  }

  // ---------------------------------------------------------------------
  // Runs of frames
  // ---------------------------------------------------------------------

  /** What one frame of the game loop consumes: the keys pressed, and the
      cell `random_food` returns if the snake eats. */
  datatype Input = Input(keys: seq<Key>, placed: Cell)

  /** One iteration of the game loop: the frame's keys, then the move step. */
  function FrameStep(g: State, policy: Policy, input: Input): (r: State)
    requires |g.snake| > 0
    ensures !g.alive ==> r == g
    ensures r.alive ==> r.direction == SteerAll(g.direction, input.keys)
    ensures |r.snake| - |g.snake| == r.score - g.score
  {
    Step(Steered(g, input.keys), policy, input.placed)
  }

  /** A session played frame by frame. A snake alive at the end was alive
      throughout, and every cell it gained was paid for with a point. */
  function Play(g: State, policy: Policy, inputs: seq<Input>): (r: State)
    requires |g.snake| > 0
    ensures |r.snake| > 0
    ensures r.alive ==> g.alive
    ensures r.score >= g.score
    ensures |r.snake| - |g.snake| == r.score - g.score
    decreases |inputs|
  {
    if |inputs| == 0 then g
    else Play(FrameStep(g, policy, inputs[0]), policy, inputs[1..])
  }

  /** Every frame of the run that eats places the food on a free board
      cell, as `random_food` does. */
  ghost predicate FairPlacements(g: State, policy: Policy, inputs: seq<Input>)
    requires |g.snake| > 0
    decreases |inputs|
  {
    |inputs| == 0 ||
    (var s := Steered(g, inputs[0].keys);
     && (Eats(s, policy) ==> InGrid(inputs[0].placed) && inputs[0].placed !in [NewHead(s, policy)] + s.snake)
     && FairPlacements(FrameStep(g, policy, inputs[0]), policy, inputs[1..]))
  }

  /** Once dead, no run of frames changes the game. */
  lemma {:induction false} DeadStaysDead(g: State, policy: Policy, inputs: seq<Input>)
    requires |g.snake| > 0 && !g.alive
    ensures Play(g, policy, inputs) == g
    decreases |inputs|
  {
    if |inputs| > 0 {
      DeadStaysDead(FrameStep(g, policy, inputs[0]), policy, inputs[1..]);
    }
  }

  /** Every frame that leaves the snake alive keeps the game well formed,
      so a run that ends alive ends well formed. */
  lemma {:induction false} PlayKeepsWellFormed(g: State, policy: Policy, inputs: seq<Input>)
    requires WellFormed(g)
    requires FairPlacements(g, policy, inputs)
    requires Play(g, policy, inputs).alive
    ensures WellFormed(Play(g, policy, inputs))
    decreases |inputs|
  {
    if |inputs| > 0 {
      var s := Steered(g, inputs[0].keys);
      StepPreservesWellFormed(s, policy, inputs[0].placed);
      PlayKeepsWellFormed(FrameStep(g, policy, inputs[0]), policy, inputs[1..]);
    }
  }

  /** From the start of a session, every state a live snake reaches has a
      distinct on-board body, food on the board and off the body, and a
      length of three plus the score. */
  lemma ReachableWellFormed(food: Cell, policy: Policy, inputs: seq<Input>)
    requires InGrid(food) && food !in InitialSnake()
    requires FairPlacements(Initial(food), policy, inputs)
    requires Play(Initial(food), policy, inputs).alive
    ensures WellFormed(Play(Initial(food), policy, inputs))
    ensures |Play(Initial(food), policy, inputs).snake| == 3 + Play(Initial(food), policy, inputs).score
  {
    PlayKeepsWellFormed(Initial(food), policy, inputs);
  }

  // ---------------------------------------------------------------------
  // Food placement: there is room while the snake is short
  // ---------------------------------------------------------------------

  /** Every board cell, row by row. */
  function AllCells(): seq<Cell> {
    seq(GridW * GridH, k => (k % GridW, k / GridW))
  }

  /** AllCells lists exactly the board cells, each once. */
  lemma AllCellsEnumerate()
    ensures forall c :: InGrid(c) <==> c in AllCells()
    ensures Distinct(AllCells())
  {
    var cells := AllCells();
    forall c | InGrid(c) ensures c in cells {
      var k := c.1 * GridW + c.0;
      assert 0 <= k < GridW * GridH;
      assert cells[k] == c;
    }
    forall i, j | 0 <= i < j < |cells| ensures cells[i] != cells[j] {
      assert i == (i / GridW) * GridW + i % GridW;
      assert j == (j / GridW) * GridW + j % GridW;
    }
  }

  /** Pigeonhole: a sequence holding every element of a distinct sequence
      is at least as long. */
  lemma {:induction false} CoverNeedsLength(a: seq<Cell>, b: seq<Cell>)
    requires Distinct(a)
    requires forall c :: c in a ==> c in b
    ensures |a| <= |b|
    decreases |a|
  {
    if |a| > 0 {
      assert a[0] in b by { assert a[0] in a; }
      var i :| 0 <= i < |b| && b[i] == a[0];
      var rest := b[..i] + b[i + 1..];
      forall c | c in a[1..] ensures c in rest {
        var k :| 0 <= k < |a| - 1 && a[1..][k] == c;
        assert a[k + 1] == c && c != a[0];
        assert c in b by { assert c in a; }
        var j :| 0 <= j < |b| && b[j] == c;
        if j < i {
          assert rest[j] == c;
        } else {
          assert rest[j - 1] == c;
        }
      }
      assert Distinct(a[1..]) by {
        forall p, q | 0 <= p < q < |a[1..]| ensures a[1..][p] != a[1..][q] {
          assert a[1..][p] == a[p + 1] && a[1..][q] == a[q + 1];
        }
      }
      CoverNeedsLength(a[1..], rest);
    }
  }

  /** A body shorter than the board leaves a free cell. */
  lemma FreeCellWhenShort(s: seq<Cell>)
    requires |s| < GridW * GridH
    ensures HasFreeCell(s)
  {
    if !HasFreeCell(s) {
      AllCellsEnumerate();
      forall c | c in AllCells() ensures c in s {
        assert InGrid(c);
      }
      CoverNeedsLength(AllCells(), s);
      assert false;
    }
  }

  /** In a well-formed game snake and food together take distinct board
      cells, so the snake is shorter than the board. */
  lemma SnakeShorterThanBoard(g: State)
    requires WellFormed(g)
    ensures |g.snake| < GridW * GridH
  {
    var a := g.snake + [g.food];
    assert Distinct(a) by {
      forall i, j | 0 <= i < j < |a| ensures a[i] != a[j] {
        if j == |g.snake| {
          assert a[i] == g.snake[i];
        } else {
          assert a[i] == g.snake[i] && a[j] == g.snake[j];
        }
      }
    }
    AllCellsEnumerate();
    forall c | c in a ensures c in AllCells() {
      var k :| 0 <= k < |a| && a[k] == c;
      if k < |g.snake| {
        assert InGrid(g.snake[k]);
      }
    }
    CoverNeedsLength(a, AllCells());
  }

  /** Food can be re-placed after any step of a well-formed game whose
      snake is at least two cells short of filling the board. */
  lemma ShortSnakeCanBeFed(g: State, policy: Policy)
    requires |g.snake| > 0
    requires |g.snake| + 1 < GridW * GridH
    ensures FoodPlaceable(g, policy)
  {
    FreeCellWhenShort([NewHead(g, policy)] + g.snake);
  }

  /** `random_food`: a board cell not on the snake. The source draws cells
      at random until one is free; here the choice is left open. */
  method RandomFood(snake: seq<Cell>) returns (pos: Cell)
    requires HasFreeCell(snake)
    ensures InGrid(pos) && pos !in snake
  {
    ghost var c :| InGrid(c) && c !in snake;
    var x, y :| 0 <= x < GridW && 0 <= y < GridH && (x, y) !in snake;
    pos := (x, y);
  }

  // ---------------------------------------------------------------------
  // The game object
  // ---------------------------------------------------------------------

  /** One session of play. The body, heading, food, score and alive flag
      are updated in place; the boundary policy is fixed for the session. */
  class Game {
    const policy: Policy
    var snake: seq<Cell>
    var direction: Cell
    var food: Cell
    var score: nat
    var alive: bool

    function Snapshot(): State
      reads this
    {
      State(snake, direction, food, score, alive)
    }

    /** The start of a session: the initial column, heading up, score 0,
        food on a free cell. */
    constructor (policy: Policy)
      ensures this.policy == policy
      ensures snake == InitialSnake() && direction == Up && score == 0 && alive
      ensures InGrid(food) && food !in snake
      ensures WellFormed(Snapshot())
    {
      assert (0, 0) !in InitialSnake();
      var f := RandomFood(InitialSnake());
      this.policy := policy;
      snake := InitialSnake();
      direction := Up;
      food := f;
      score := 0;
      alive := true;
    }

    /** A key press: while alive a direction key turns the snake unless it
        asks for the opposite heading; once dead, keys do not steer. */
    method KeyPress(key: Key)
      modifies this`direction
      ensures direction == if alive then Steer(old(direction), key) else old(direction)
    {
      if alive {
        if key == KeyUp && direction != Down {
          direction := Up;
        } else if key == KeyDown && direction != Up {
          direction := Down;
        } else if key == KeyLeft && direction != Right {
          direction := Left;
        } else if key == KeyRight && direction != Left {
          direction := Right;
        }
      }
    }

    /** The move step, on the fields in place. */
    method Tick()
      requires |snake| > 0
      requires FoodPlaceable(Snapshot(), policy)
      modifies this
      ensures Snapshot() == Step(old(Snapshot()), policy, food)
      ensures Eats(old(Snapshot()), policy) ==> InGrid(food) && food !in snake
      ensures old(WellFormed(Snapshot())) && alive ==> WellFormed(Snapshot())
    {
      ghost var g := Snapshot();
      if alive {
        var head := snake[0];
        var newX := head.0 + direction.0;
        var newY := head.1 + direction.1;
        var newHead: Cell;
        if policy == Wrap {
          newHead := (newX % GridW, newY % GridH);
        } else {
          if !(0 <= newX < GridW && 0 <= newY < GridH) {
            alive := false;
            newHead := (newX, newY);
          } else {
            newHead := (newX, newY);
          }
        }
        if newHead in snake {
          alive := false;
        } else {
          snake := [newHead] + snake;
          if newHead == food {
            score := score + 1;
            food := RandomFood(snake);
          } else {
            snake := snake[..|snake| - 1];
          }
        }
      }
      if g.alive && WellFormed(g) && alive {
        StepPreservesWellFormed(g, policy, food);
      }
    }

    /** One frame of the game loop: the frame's keys in order, then the
        move step. */
    method Frame(keys: seq<Key>)
      requires |snake| > 0
      requires FoodPlaceable(Steered(Snapshot(), keys), policy)
      modifies this
      ensures Snapshot() == FrameStep(old(Snapshot()), policy, Input(keys, food))
      ensures old(WellFormed(Snapshot())) && alive ==> WellFormed(Snapshot())
    {
      ghost var d0 := direction;
      var i := 0;
      while i < |keys|
        invariant 0 <= i <= |keys|
        invariant snake == old(snake) && food == old(food) && score == old(score) && alive == old(alive)
        invariant direction == if alive then SteerAll(d0, keys[..i]) else d0
      {
        assert keys[..i + 1][..i] == keys[..i];
        KeyPress(keys[i]);
        i := i + 1;
      }
      assert keys[..|keys|] == keys;
      Tick();
    }
  }
}
