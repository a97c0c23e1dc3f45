/**
 The snake task's code: the body ring, its search loops and the dispatch function, proved against SnakeGame.
 */
module Snake {
  import opened Words
  import opened Rings
  import opened SnakeGame

  /** The checks a restore makes on a game record. */
  method CheckState(g: Game) returns (ok: bool)
    requires g.Sized()
    ensures ok == StateValid(g)
  {
    hide Cells;
    if g.active > 1 || g.mode < TITLE || g.mode > GAME_OVER || !DirValid(g.dir) || !DirValid(g.pending) {
      return false;
    }
    if g.length > CELLS || g.head >= CELLS {
      return false;
    }
    if !OnBoard(g.food) && !(g.mode == GAME_OVER && g.reason == WIN) {
      return false;
    }
    if g.reason > WIN || (g.active != 0 && g.mode != TITLE && g.length == 0) {
      return false;
    }
    ok := CheckCells(g);
  }

  method CheckCells(g: Game) returns (ok: bool)
    requires g.Sized() && g.length <= CELLS
    ensures ok == (AllOnBoard(Cells(g)) && Distinct(Cells(g)))
  {
    ghost var cs := Cells(g);
    hide Cells;
    for i := 0 to g.length
      invariant forall a :: 0 <= a < i ==> OnBoard(cs[a])
      invariant forall a, b :: 0 <= a < i && a < b < |cs| ==> cs[a] != cs[b]
    {
      var cell := CellAt(g, i);
      if cell.x >= WIDTH || cell.y >= HEIGHT {
        assert !OnBoard(cs[i]);
        return false;
      }
      for j := i + 1 to g.length
        invariant forall b :: i < b < j ==> cs[i] != cs[b]
      {
        var other := CellAt(g, j);
        if cell.x == other.x && cell.y == other.y {
          assert cs[i] == cs[j];
          return false;
        }
      }
    }
    ok := true;
  }

  /** The cell at an offset from the tail. */
  function CellAt(g: Game, offset: nat): (c: Cell)
    requires g.Sized() && offset < g.length <= CELLS
    ensures c == Cells(g)[offset]
  {
    OffsetIndex(TailIndex(g.head, g.length), offset);
    g.body[(TailIndex(g.head, g.length) + offset) % CELLS]
  }

  lemma OffsetIndex(t: nat, i: nat)
    requires t < CELLS && i < CELLS
    ensures (t + i) % CELLS == RingSlot(t, i, CELLS)
  {
    Wrap(t + i);
  }

  class Task {
    var active: uint8
    var mode: uint8
    var dir: uint8
    var pending: uint8
    var length: uint8
    var head: uint8
    var food: Cell
    var reason: uint8
    var reserved: seq<uint8>
    var score: uint32
    var interval: uint32
    var nextTick: uint32
    const body: array<Cell>

    constructor ()
      ensures Valid() && State() == Blank() && fresh(body)
    {
      active, mode, dir, pending, length, head := 0, TITLE, RIGHT, RIGHT, 0, 0;
      food, reason, reserved, score, interval, nextTick := Cell(0, 0), NONE, Zeros(3), 0, 160, 0;
      body := new Cell[CELLS](i => Cell(0, 0));
      new;
      assert body[..] == NoBody();
    }

    ghost predicate Valid()
      reads this
    {
      body.Length == CELLS && |reserved| == 3 && length <= CELLS && head < CELLS
    }

    ghost function State(): (g: Game)
      requires Valid()
      reads this, body
      ensures g.Sized()
    {
      Game(active, mode, dir, pending, length, head, food, reason, reserved, score, interval, nextTick, body[..])
    }

    method CellFromTail(offset: nat) returns (c: Cell)
      requires Valid() && offset < length
      ensures c == Cells(State())[offset]
    {
      var tail := (head + CELLS + 1 - length) % CELLS;
      OffsetIndex(tail, offset);
      assert body[..][RingSlot(tail, offset, CELLS)] == body[RingSlot(tail, offset, CELLS)];
      c := body[(tail + offset) % CELLS];
    }

    method CellOccupied(x: uint8, y: uint8, ignoreTail: bool) returns (found: bool)
      requires Valid()
      ensures found == Occupied(State(), Cell(x, y), ignoreTail)
    {
      hide Cells;
      ghost var cs := Cells(State());
      var start: nat := if ignoreTail then 1 else 0;
      var i := start;
      while i < length
        invariant start <= i && forall j :: start <= j < i && j < length ==> cs[j] != Cell(x, y)
      {
        var cell := CellFromTail(i);
        if cell.x == x && cell.y == y {
          assert cs[i] == Cell(x, y);
          assert ignoreTail ==> cs[1..][i - 1] == Cell(x, y);
          return true;
        }
        i := i + 1;
      }
      found := false;
    }

    method ZeroBody()
      requires Valid()
      modifies body
      ensures body[..] == NoBody()
    {
      for i := 0 to CELLS
        invariant forall j :: 0 <= j < i ==> body[j] == Cell(0, 0)
      {
        body[i] := Cell(0, 0);
      }
    }

    /** Mix the game into a start position for the food search. */
    method Seed() returns (start: nat)
      requires Valid()
      ensures start == ProbeStart(State())
    {
      hide Cells, Mix;
      ghost var cs := Cells(State());
      var seed := Mix(Mix(Mix(Mix(0x51A7_E5D3, score), length), dir), pending);
      ghost var first := seed;
      for i := 0 to length
        invariant seed == MixCells(first, cs[..i])
      {
        var cell := CellFromTail(i);
        assert cs[..i + 1][..i] == cs[..i];
        seed := Mix(seed, 0x100 * cell.x + cell.y);
      }
      assert cs[..length] == cs;
      start := seed % CELLS;
    }

    /** Place the food on the first free cell of the probe, or declare the game won. */
    method PlaceFood()
      requires Valid()
      modifies this`food, this`mode, this`reason
      ensures Valid() && State() == SpawnFood(old(State()))
    {
      hide Cells, FirstFree, CellOf, Probe, ProbeStart;
      var start := Seed();
      ghost var cs := Cells(State());
      for step := 0 to CELLS
        invariant Valid() && State() == old(State())
        invariant forall j :: 0 <= j < step ==> CellOf(Probe(start, j)) in cs
      {
        var c := CellOf(Probe(start, step));
        var taken := CellOccupied(c.x, c.y, false);
        if !taken {
          food := c;
          return;
        }
      }
      mode := GAME_OVER;
      reason := WIN;
    }

    /** Three cells in the middle of the board. */
    method LayBody()
      requires Valid()
      modifies body
      ensures body[..] == NoBody()[0 := Cell(8, 6)][1 := Cell(9, 6)][2 := Cell(10, 6)]
    {
      ZeroBody();
      body[0] := Cell(8, 6);
      body[1] := Cell(9, 6);
      body[2] := Cell(10, 6);
    }

    method StartGame(now: uint32)
      requires Valid()
      modifies this, body
      ensures Valid() && State() == SnakeGame.StartGame(old(State()), now)
    {
      hide SpawnFood;
      LayBody();
      mode, dir, pending, length, head := PLAYING, RIGHT, RIGHT, 3, 2;
      score, reason, nextTick := 0, NONE, (now + interval) % TWO_32;
      PlaceFood();
    }

    method EndGame(why: uint8)
      requires Valid()
      modifies this`mode, this`reason, this`nextTick
      ensures Valid() && State() == Over(old(State()), why)
    {
      mode, reason, nextTick := GAME_OVER, why, 0;
    }

    /** Grow, and place new food unless the board is full. */
    method Feed(now: uint32)
      requires Valid()
      modifies this`length, this`score, this`food, this`mode, this`reason, this`nextTick
      ensures Valid() && State() == Eat(old(State()), now)
    {
      hide SpawnFood;
      if length < CELLS {
        length := length + 1;
      }
      score := (score + 1) % TWO_32;
      assert State() == Grown(old(State()));
      if length >= CELLS {
        EndGame(WIN);
        return;
      }
      PlaceFood();
      if mode == GAME_OVER {
        return;
      }
      nextTick := (now + interval) % TWO_32;
    }

    method MoveHead(c: Cell)
      requires Valid()
      modifies this`head, body
      ensures Valid() && State() == Advance(old(State()), c)
    {
      var newHead := (head + 1) % CELLS;
      ghost var was := body[..];
      body[newHead] := c;
      assert body[..] == was[newHead := c];
      head := newHead;
    }

    /** The cell ahead, unless there is a wall. */
    method Look() returns (c: Option<Cell>)
      requires Valid()
      ensures c == Target(State().body[head], dir)
    {
      var h := body[head];
      assert h == State().body[head];
      if dir == UP {
        if h.y == 0 {
          return None;
        }
        return Some(Cell(h.x, h.y - 1));
      } else if dir == DOWN {
        if h.y + 1 >= HEIGHT {
          return None;
        }
        return Some(Cell(h.x, h.y + 1));
      } else if dir == LEFT {
        if h.x == 0 {
          return None;
        }
        return Some(Cell(h.x - 1, h.y));
      }
      if h.x + 1 >= WIDTH {
        return None;
      }
      c := Some(Cell(h.x + 1, h.y));
    }

    method Step(now: uint32)
      requires Valid()
      modifies this, body
      ensures Valid() && State() == SnakeGame.Step(old(State()), now)
    {
      hide Eat, Advance, Target, Occupied, Opposite;
      if active == 0 || mode != PLAYING || length == 0 {
        return;
      }
      if !Opposite(dir, pending) || length <= 1 {
        dir := pending;
      }
      assert State() == Turned(old(State()));
      var c := Look();
      if c == None {
        EndGame(WALL);
        return;
      }
      var grow := food == c.value;
      var hit := CellOccupied(c.value.x, c.value.y, !grow);
      if hit {
        EndGame(SELF);
        return;
      }
      MoveHead(c.value);
      if grow {
        Feed(now);
      } else {
        nextTick := (now + interval) % TWO_32;
      }
    }

    method Press(key: uint8, now: uint32)
      requires Valid()
      modifies this, body
      ensures Valid() && State() == SnakeGame.Press(old(State()), key, now)
    {
      hide SnakeGame.StartGame;
      if key == 'q' as int || key == 'Q' as int {
        active, nextTick := 0, 0;
        return;
      }
      if key == 'r' as int || key == 'R' as int {
        StartGame(now);
        return;
      }
      if key == 'p' as int || key == 'P' as int {
        if mode == PLAYING {
          mode, nextTick := PAUSED, 0;
        } else if mode == PAUSED {
          mode, nextTick := PLAYING, (now + interval) % TWO_32;
        }
        return;
      }
      if mode != PLAYING && mode != PAUSED {
        return;
      }
      var d := KeyDir(key);
      if d.Some? && (!Opposite(dir, d.value) || length <= 1) {
        pending := d.value;
      }
    }

    method ResetState()
      requires Valid()
      modifies this, body
      ensures Valid() && State() == Blank()
    {
      active, mode, dir, pending, length, head := 0, TITLE, RIGHT, RIGHT, 0, 0;
      food, reason, reserved, score, interval, nextTick := Cell(0, 0), NONE, Zeros(3), 0, 160, 0;
      ZeroBody();
    }

    /** Take over a saved game, if it is valid. */
    method RestoreState(g: Game, now: uint32) returns (ok: bool)
      requires Valid() && g.Sized()
      modifies this, body
      ensures Valid() && ok == StateValid(g) && State() == if ok then Restored(g, now) else old(State())
    {
      hide Cells;
      ok := CheckState(g);
      if !ok {
        return;
      }
      if g.active == 0 {
        ResetState();
        return;
      }
      CopyState(g);
      nextTick := if mode == PLAYING then (now + interval) % TWO_32 else 0;
    }

    method CopyState(g: Game)
      requires Valid() && g.Sized() && g.length <= CELLS && g.head < CELLS
      modifies this, body
      ensures Valid() && State() == g
    {
      for i := 0 to CELLS
        invariant forall j :: 0 <= j < i ==> body[j] == g.body[j]
      {
        body[i] := g.body[i];
      }
      assert body[..] == g.body;
      active, mode, dir, pending, length, head := g.active, g.mode, g.dir, g.pending, g.length, g.head;
      food, reason, reserved, score, interval, nextTick := g.food, g.reason, g.reserved, g.score, g.interval, g.nextTick;
    }

    /** The dispatch function: a start request, a tick or a key. Every event keeps the game's invariant. */
    method Dispatch(e: Event)
      requires Valid() && Inv(State()) && (e.Begin? || e.Tick? || e.Key?)
      modifies this, body
      ensures Valid() && State() == Next(old(State()), e) && Inv(State())
    {
      hide Inv, SnakeGame.Step, SnakeGame.Press, Blank;
      NextKeepsInv(State(), e);
      if e.Begin? {
        if active == 0 {
          ResetState();
          active := 1;
        }
        return;
      }
      if active == 0 {
        return;
      }
      match e {
        case Tick(now) => Step(now);
        case Key(key, now) => Press(key, now);
      }
    }
  }
}
