/**
 The snake game as a state machine on the saved game record: the body is a ring of cells, food is placed by a
 probe over the board, and the record is what a checkpoint stores and a restore accepts.
 */
module SnakeGame {
  import opened Words
  import opened Rings

  const WIDTH: nat := 20
  const HEIGHT: nat := 12
  const CELLS: nat := 240

  const TITLE: uint8 := 1
  const PLAYING: uint8 := 2
  const PAUSED: uint8 := 3
  const GAME_OVER: uint8 := 4

  const UP: uint8 := 1
  const RIGHT: uint8 := 2
  const DOWN: uint8 := 3
  const LEFT: uint8 := 4

  const NONE: uint8 := 0
  const WALL: uint8 := 1
  const SELF: uint8 := 2
  const WIN: uint8 := 3

  datatype Cell = Cell(x: uint8, y: uint8)

  datatype Game = Game(active: uint8, mode: uint8, dir: uint8, pending: uint8, length: uint8, head: uint8,
                       food: Cell, reason: uint8, reserved: seq<uint8>, score: uint32, interval: uint32,
                       nextTick: uint32, body: seq<Cell>) {
    predicate Sized() {
      |body| == CELLS && |reserved| == 3
    }
  }

  function TailIndex(head: nat, length: nat): (t: nat)
    requires length <= CELLS
    ensures t < CELLS
  {
    (head + CELLS + 1 - length) % CELLS
  }

  /** The snake from tail to head. */
  function Cells(g: Game): (cs: seq<Cell>)
    requires g.Sized() && g.length <= CELLS
    ensures |cs| == g.length
  {
    Window(g.body, TailIndex(g.head, g.length), g.length)
  }

  predicate OnBoard(c: Cell) {
    c.x < WIDTH && c.y < HEIGHT
  }

  predicate AllOnBoard(cs: seq<Cell>) {
    forall i :: 0 <= i < |cs| ==> OnBoard(cs[i])
  }

  predicate Distinct(cs: seq<Cell>) {
    forall i, j :: 0 <= i < j < |cs| ==> cs[i] != cs[j]
  }

  predicate DirValid(d: uint8) {
    UP <= d <= LEFT
  }

  predicate Opposite(a: uint8, b: uint8) {
    (a == UP && b == DOWN) || (a == DOWN && b == UP) || (a == LEFT && b == RIGHT) || (a == RIGHT && b == LEFT)
  }

  /** What a restore accepts. */
  predicate StateValid(g: Game)
    requires g.Sized()
  {
    && g.active <= 1 && TITLE <= g.mode <= GAME_OVER && DirValid(g.dir) && DirValid(g.pending)
    && g.length <= CELLS && g.head < CELLS
    && (OnBoard(g.food) || (g.mode == GAME_OVER && g.reason == WIN))
    && g.reason <= WIN && !(g.active != 0 && g.mode != TITLE && g.length == 0)
    && AllOnBoard(Cells(g)) && Distinct(Cells(g))
  }

  // Food

  function Mix(seed: uint32, value: uint32): uint32 {
    Xor32(seed, (value + 0x9E37_79B9 + seed * 64 % TWO_32 + seed / 4) % TWO_32)
  }

  function MixCells(seed: uint32, cs: seq<Cell>): uint32 {
    if cs == [] then seed
    else Mix(MixCells(seed, cs[..|cs| - 1]), 0x100 * cs[|cs| - 1].x + cs[|cs| - 1].y)
  }

  /** Where the search for a free cell begins. */
  function ProbeStart(g: Game): (s: nat)
    requires g.Sized() && g.length <= CELLS
    ensures s < CELLS
  {
    MixCells(Mix(Mix(Mix(Mix(0x51A7_E5D3, g.score), g.length), g.dir), g.pending), Cells(g)) % CELLS
  }

  function Probe(start: nat, step: nat): (i: nat)
    ensures i < CELLS
  {
    (start + step * 97) % CELLS
  }

  function CellOf(i: nat): (c: Cell)
    requires i < CELLS
    ensures OnBoard(c)
  {
    Cell(i % WIDTH, i / WIDTH)
  }

  function IndexOf(c: Cell): (i: nat)
    requires OnBoard(c)
    ensures i < CELLS && CellOf(i) == c
  {
    c.y * WIDTH + c.x
  }

  lemma Residue(x: int, i: int, k: int)
    requires x == i + 240 * k && 0 <= i < 240
    ensures x % 240 == i
  {
  }

  /** The probe reaches every cell: 97 and 193 are inverse modulo 240, as 97 * 193 == 1 + 240 * 78. */
  lemma ProbeReaches(start: nat, i: nat)
    requires start < CELLS && i < CELLS
    ensures exists step :: 0 <= step < CELLS && Probe(start, step) == i
  {
    var wrap := if i < start then 1 else 0;
    var d := i + 240 * wrap - start;
    var q, step := d * 193 / 240, d * 193 % 240;
    assert d * 193 == 240 * q + step;
    Residue(start + step * 97, i, wrap + 78 * d - 97 * q);
    assert Probe(start, step) == i;
  }

  function FirstFree(cs: seq<Cell>, start: nat, step: nat): (k: nat)
    requires step <= CELLS
    ensures step <= k <= CELLS
    ensures k < CELLS ==> CellOf(Probe(start, k)) !in cs
    ensures forall j :: step <= j < k ==> CellOf(Probe(start, j)) in cs
    decreases CELLS - step
  {
    if step == CELLS || CellOf(Probe(start, step)) !in cs then step else FirstFree(cs, start, step + 1)
  }

  function SpawnFood(g: Game): (g': Game)
    requires g.Sized() && g.length <= CELLS
    ensures g'.Sized()
  {
    var k := FirstFree(Cells(g), ProbeStart(g), 0);
    if k < CELLS then g.(food := CellOf(Probe(ProbeStart(g), k))) else g.(mode := GAME_OVER, reason := WIN)
  }

  function Below(n: nat): (s: set<nat>)
    ensures |s| == n && forall i :: i in s <==> 0 <= i < n
  {
    if n == 0 then {} else Below(n - 1) + {n - 1}
  }

  function Covered(cs: seq<Cell>): set<nat> {
    set i | i in Below(CELLS) && CellOf(i) in cs
  }

  lemma {:induction false} FewCells(cs: seq<Cell>)
    ensures |Covered(cs)| <= |cs|
  {
    if cs == [] {
      assert Covered(cs) == {};
    } else {
      var init, last := cs[..|cs| - 1], cs[|cs| - 1];
      FewCells(init);
      var one := if OnBoard(last) then {IndexOf(last)} else {};
      forall i | i in Covered(cs)
        ensures i in Covered(init) + one
      {
        if CellOf(i) !in init {
          assert CellOf(i) == last;
          CellInjective(i, IndexOf(last));
        }
      }
      SubsetSize(Covered(cs), Covered(init) + one);
    }
  }

  lemma CellInjective(i: nat, j: nat)
    requires i < CELLS && j < CELLS && CellOf(i) == CellOf(j)
    ensures i == j
  {
  }

  lemma {:induction false} SubsetSize(a: set<nat>, b: set<nat>)
    requires a <= b
    ensures |a| <= |b|
  {
    if a != {} {
      var x :| x in a;
      SubsetSize(a - {x}, b - {x});
    }
  }

  /** Pigeonhole: fewer than 240 cells leave one free. */
  lemma SomeCellFree(cs: seq<Cell>)
    requires |cs| < CELLS
    ensures exists i :: 0 <= i < CELLS && CellOf(i) !in cs
  {
    FewCells(cs);
    if Below(CELLS) <= Covered(cs) {
      SubsetSize(Below(CELLS), Covered(cs));
    }
  }

  /** Food is always found off a snake that does not fill the board; otherwise the game is won. */
  lemma SpawnFinds(g: Game)
    requires g.Sized() && g.length <= CELLS
    ensures g.length < CELLS ==> SpawnFood(g) == g.(food := SpawnFood(g).food)
                                 && OnBoard(SpawnFood(g).food) && SpawnFood(g).food !in Cells(g)
  {
    if g.length < CELLS {
      SomeCellFree(Cells(g));
      hide FirstFree, Probe, CellOf, ProbeStart;
      var i :| 0 <= i < CELLS && CellOf(i) !in Cells(g);
      ProbeReaches(ProbeStart(g), i);
    }
  }

  // Moving

  /** The cell one step away, unless there is a wall. */
  function Target(c: Cell, dir: uint8): Option<Cell> {
    if dir == UP then (if c.y == 0 then None else Some(Cell(c.x, c.y - 1)))
    else if dir == DOWN then (if c.y + 1 >= HEIGHT then None else Some(Cell(c.x, c.y + 1)))
    else if dir == LEFT then (if c.x == 0 then None else Some(Cell(c.x - 1, c.y)))
    else if c.x + 1 >= WIDTH then None else Some(Cell(c.x + 1, c.y))
  }

  /** Turn, unless that would be a reversal. */
  function Turned(g: Game): Game {
    if !Opposite(g.dir, g.pending) || g.length <= 1 then g.(dir := g.pending) else g
  }

  predicate Occupied(g: Game, c: Cell, ignoreTail: bool)
    requires g.Sized() && g.length <= CELLS
  {
    c in if ignoreTail && g.length > 0 then Cells(g)[1..] else Cells(g)
  }

  function Over(g: Game, reason: uint8): Game {
    g.(mode := GAME_OVER, reason := reason, nextTick := 0)
  }

  function Deadline(g: Game, now: uint32): uint32 {
    (now + g.interval) % TWO_32
  }

  /** The head moves to c; a snake that eats keeps its tail. */
  function Advance(g: Game, c: Cell): (g': Game)
    requires g.Sized() && g.head < CELLS
    ensures g'.Sized() && g'.head < CELLS
  {
    g.(body := g.body[(g.head + 1) % CELLS := c], head := (g.head + 1) % CELLS)
  }

  function Grown(g: Game): Game {
    g.(length := if g.length < CELLS then g.length + 1 else g.length, score := (g.score + 1) % TWO_32)
  }

  function Eat(g: Game, now: uint32): (g': Game)
    requires g.Sized() && g.length <= CELLS
    ensures g'.Sized()
  {
    var e := Grown(g);
    if e.length >= CELLS then Over(e, WIN)
    else
      var f := SpawnFood(e);
      if f.mode == GAME_OVER then f else f.(nextTick := Deadline(f, now))
  }

  function Step(g: Game, now: uint32): (g': Game)
    requires g.Sized() && g.length <= CELLS && g.head < CELLS
    ensures g'.Sized()
  {
    if g.active == 0 || g.mode != PLAYING || g.length == 0 then g
    else
      var t := Turned(g);
      var c := Target(t.body[t.head], t.dir);
      if c == None then Over(t, WALL)
      else
        var grow := t.food == c.value;
        if Occupied(t, c.value, !grow) then Over(t, SELF)
        else
          var m := Advance(t, c.value);
          if grow then Eat(m, now) else m.(nextTick := Deadline(m, now))
  }

  // Starting, stopping, keys

  function Blank(): (g: Game)
    ensures g.Sized()
  {
    Game(0, TITLE, RIGHT, RIGHT, 0, 0, Cell(0, 0), NONE, Zeros(3), 0, 160, 0, NoBody())
  }

  function NoBody(): (b: seq<Cell>)
    ensures |b| == CELLS && forall i :: 0 <= i < CELLS ==> b[i] == Cell(0, 0)
  {
    seq(CELLS, i => Cell(0, 0))
  }

  function StartGame(g: Game, now: uint32): (g': Game)
    requires g.Sized()
    ensures g'.Sized()
  {
    var body := NoBody()[0 := Cell(8, 6)][1 := Cell(9, 6)][2 := Cell(10, 6)];
    SpawnFood(g.(mode := PLAYING, dir := RIGHT, pending := RIGHT, length := 3, head := 2, body := body, score := 0,
                 reason := NONE, nextTick := Deadline(g, now)))
  }

  function KeyDir(key: uint8): Option<uint8> {
    if key == 'w' as int || key == 'W' as int then Some(UP)
    else if key == 'd' as int || key == 'D' as int then Some(RIGHT)
    else if key == 's' as int || key == 'S' as int then Some(DOWN)
    else if key == 'a' as int || key == 'A' as int then Some(LEFT)
    else None
  }

  function Press(g: Game, key: uint8, now: uint32): (g': Game)
    requires g.Sized()
    ensures g'.Sized()
  {
    if key == 'q' as int || key == 'Q' as int then g.(active := 0, nextTick := 0)
    else if key == 'r' as int || key == 'R' as int then StartGame(g, now)
    else if key == 'p' as int || key == 'P' as int then
      if g.mode == PLAYING then g.(mode := PAUSED, nextTick := 0)
      else if g.mode == PAUSED then g.(mode := PLAYING, nextTick := Deadline(g, now))
      else g
    else if g.mode != PLAYING && g.mode != PAUSED then g
    else
      var d := KeyDir(key);
      if d.Some? && (!Opposite(g.dir, d.value) || g.length <= 1) then g.(pending := d.value) else g
  }

  // The invariant

  predicate Adjacent(a: Cell, b: Cell) {
    (a.x == b.x && (a.y == b.y + 1 || b.y == a.y + 1)) || (a.y == b.y && (a.x == b.x + 1 || b.x == a.x + 1))
  }

  predicate Connected(cs: seq<Cell>) {
    forall i, j :: 0 <= i && j == i + 1 < |cs| ==> Adjacent(cs[i], cs[j])
  }

  predicate BodyOk(cs: seq<Cell>) {
    AllOnBoard(cs) && Distinct(cs) && Connected(cs)
  }

  /** The head is where a step in direction dir from the neck leads. */
  predicate Heading(cs: seq<Cell>, dir: uint8) {
    |cs| >= 2 && Target(cs[|cs| - 2], dir) == Some(cs[|cs| - 1])
  }

  predicate Alive(g: Game)
    requires g.Sized() && g.length <= CELLS
  {
    && g.length < CELLS && Heading(Cells(g), g.dir) && !Opposite(g.dir, g.pending)
    && g.reason == NONE && g.food !in Cells(g)
  }

  predicate Ended(g: Game)
    requires g.Sized() && g.length <= CELLS
  {
    (g.reason == WIN && g.length == CELLS) || ((g.reason == WALL || g.reason == SELF) && g.length < CELLS && g.food !in Cells(g))
  }

  predicate Inv(g: Game) {
    && g.Sized() && g.active <= 1 && DirValid(g.dir) && DirValid(g.pending) && g.head < CELLS && g.length <= CELLS
    && OnBoard(g.food)
    && if g.mode == TITLE then g.length == 0 && g.reason == NONE
       else
         && g.length >= 3 && g.score == g.length - 3 && BodyOk(Cells(g))
         && (((g.mode == PLAYING || g.mode == PAUSED) && Alive(g)) || (g.mode == GAME_OVER && Ended(g)))
  }

  /** Every state of the invariant is one a restore accepts. */
  lemma InvIsValid(g: Game)
    requires Inv(g)
    ensures StateValid(g)
  {
    hide Cells;
  }

  lemma Wrap(x: nat)
    requires x < 2 * CELLS
    ensures x % CELLS == if x < CELLS then x else x - CELLS
  {
  }

  lemma TailAt(head: nat, length: nat)
    requires head < CELLS && 0 < length <= CELLS
    ensures var x := head + CELLS + 1 - length; TailIndex(head, length) == if x < CELLS then x else x - CELLS
  {
    Wrap(head + CELLS + 1 - length);
  }

  lemma HeadIndex(head: nat, length: nat)
    requires head < CELLS && 0 < length <= CELLS
    ensures RingSlot(TailIndex(head, length), length - 1, CELLS) == head
  {
    hide TailIndex;
    TailAt(head, length);
  }

  lemma HeadCell(g: Game)
    requires g.Sized() && g.head < CELLS && 0 < g.length <= CELLS
    ensures Cells(g)[g.length - 1] == g.body[g.head]
  {
    hide TailIndex;
    HeadIndex(g.head, g.length);
  }

  lemma NextIndex(head: nat, length: nat)
    requires head < CELLS && 0 < length < CELLS
    ensures var h, t := (head + 1) % CELLS, TailIndex(head, length);
            && RingSlot(t, length, CELLS) == h && TailIndex(h, length + 1) == t
            && TailIndex(h, length) == RingSlot(t, 1, CELLS)
  {
    hide TailIndex;
    Wrap(head + 1);
    TailAt(head, length);
    TailAt((head + 1) % CELLS, length);
    TailAt((head + 1) % CELLS, length + 1);
  }

  /** The ring before and after a move: the new head is appended, and the tail goes unless the snake grows. */
  lemma AdvanceCells(g: Game, c: Cell)
    requires g.Sized() && g.head < CELLS && 0 < g.length < CELLS
    ensures Cells(Advance(g, c)) == Cells(g)[1..] + [c]
    ensures Cells(Grown(Advance(g, c))) == Cells(g) + [c]
  {
    hide TailIndex, Window;
    var t, n := TailIndex(g.head, g.length), g.length;
    NextIndex(g.head, n);
    WindowPush(g.body, t, n, c);
    var body := g.body[(g.head + 1) % CELLS := c];
    WindowPop(body, t, n + 1);
    assert Window(body, t, n + 1)[1..] == Window(body, RingSlot(t, 1, CELLS), n);
    assert (Cells(g) + [c])[1..] == Cells(g)[1..] + [c];
  }

  /** The next cell is never the neck. */
  lemma NeverOntoNeck(neck: Cell, head: Cell, dir: uint8, turn: uint8)
    requires DirValid(dir) && DirValid(turn) && !Opposite(dir, turn) && Target(neck, dir) == Some(head)
    ensures Target(head, turn) != Some(neck)
  {
  }

  lemma TargetNext(c: Cell, dir: uint8)
    requires OnBoard(c) && Target(c, dir).Some?
    ensures OnBoard(Target(c, dir).value) && Adjacent(c, Target(c, dir).value)
  {
  }

  lemma ExtendBody(cs: seq<Cell>, c: Cell)
    requires cs != [] && BodyOk(cs) && OnBoard(c) && Adjacent(cs[|cs| - 1], c) && c !in cs
    ensures BodyOk(cs + [c])
  {
  }

  lemma DropTail(cs: seq<Cell>)
    requires cs != [] && BodyOk(cs)
    ensures BodyOk(cs[1..])
  {
    var r := cs[1..];
    assert forall i :: 0 <= i < |r| ==> r[i] == cs[i + 1];
    forall i, j | 0 <= i && j == i + 1 < |r|
      ensures Adjacent(r[i], r[j])
    {
      assert Adjacent(cs[i + 1], cs[j + 1]);
    }
  }

  lemma SameCells(g: Game, g': Game)
    requires g.Sized() && g.length <= CELLS && g'.body == g.body && g'.head == g.head && g'.length == g.length && g'.Sized()
    ensures Cells(g') == Cells(g)
  {
  }

  /** A step that neither dies nor eats. */
  lemma MoveKeepsInv(g: Game, t: Game, c: Cell, now: uint32)
    requires Inv(g) && g.mode == PLAYING && t == g.(dir := g.pending) && Target(g.body[g.head], g.pending) == Some(c)
    requires c != g.food && c !in Cells(g)[1..]
    ensures Inv(Advance(t, c).(nextTick := Deadline(t, now)))
  {
    hide Cells, Adjacent, Target, BodyOk;
    var cs, m := Cells(g), Advance(t, c);
    HeadCell(g);
    SameCells(g, t);
    AdvanceCells(t, c);
    SameCells(m, m.(nextTick := Deadline(t, now)));
    HeadOnBoard(g);
    TargetNext(g.body[g.head], g.pending);
    DropTail(cs);
    ExtendBody(cs[1..], c);
  }

  lemma HeadOnBoard(g: Game)
    requires Inv(g) && g.mode != TITLE
    ensures OnBoard(g.body[g.head])
  {
    hide Cells;
    HeadCell(g);
  }

  /** A step onto the food. */
  lemma EatKeepsInv(g: Game, t: Game, now: uint32)
    requires Inv(g) && g.mode == PLAYING && t == g.(dir := g.pending) && Target(g.body[g.head], g.pending) == Some(g.food)
    ensures Inv(Eat(Advance(t, g.food), now))
  {
    hide Cells, Adjacent, Target, BodyOk, SpawnFood;
    var cs, e := Cells(g), Grown(Advance(t, g.food));
    HeadCell(g);
    SameCells(g, t);
    AdvanceCells(t, g.food);
    HeadOnBoard(g);
    TargetNext(g.body[g.head], g.pending);
    ExtendBody(cs, g.food);
    if e.length < CELLS {
      SpawnFinds(e);
      var f := SpawnFood(e);
      SameCells(e, f.(nextTick := Deadline(f, now)));
    } else {
      SameCells(e, Over(e, WIN));
    }
  }

  lemma StepKeepsInv(g: Game, now: uint32)
    requires Inv(g)
    ensures Inv(Step(g, now))
  {
    hide Cells, Target, BodyOk, SpawnFood, Eat, Advance;
    if g.active != 0 && g.mode == PLAYING {
      var t := Turned(g);
      assert t == g.(dir := g.pending);
      SameCells(g, t);
      SameCells(g, Over(t, WALL));
      SameCells(g, Over(t, SELF));
      var c := Target(t.body[t.head], t.dir);
      if c.Some? {
        if c.value == g.food {
          EatKeepsInv(g, t, now);
        } else if !Occupied(t, c.value, true) {
          MoveKeepsInv(g, t, c.value, now);
          AdvanceInterval(t, c.value, now);
        }
      }
    }
  }

  lemma AdvanceInterval(g: Game, c: Cell, now: uint32)
    requires g.Sized() && g.head < CELLS
    ensures Deadline(Advance(g, c), now) == Deadline(g, now)
  {
  }

  lemma StartKeepsInv(g: Game, now: uint32)
    requires Inv(g)
    ensures Inv(StartGame(g, now))
  {
    var body := NoBody()[0 := Cell(8, 6)][1 := Cell(9, 6)][2 := Cell(10, 6)];
    var s := g.(mode := PLAYING, dir := RIGHT, pending := RIGHT, length := 3, head := 2, body := body, score := 0,
                reason := NONE, nextTick := Deadline(g, now));
    assert Cells(s) == [Cell(8, 6), Cell(9, 6), Cell(10, 6)];
    hide Cells, SpawnFood;
    SpawnFinds(s);
    SameCells(s, SpawnFood(s));
  }

  lemma PressKeepsInv(g: Game, key: uint8, now: uint32)
    requires Inv(g)
    ensures Inv(Press(g, key, now))
  {
    hide Cells, StartGame, BodyOk, Heading;
    StartKeepsInv(g, now);
    var p := Press(g, key, now);
    if p.body == g.body && p.head == g.head && p.length == g.length {
      SameCells(g, p);
    }
  }

  // What a tick and a key do

  /** One step to the right is +1 in x, one step down +1 in y. */
  function StepX(dir: uint8): int {
    if dir == 2 then 1 else if dir == 4 then -1 else 0
  }

  function StepY(dir: uint8): int {
    if dir == 3 then 1 else if dir == 1 then -1 else 0
  }

  /** The cell the head reaches, in coordinates; None is off the 20 by 12 board. */
  function Ahead(g: Game): Option<Cell>
    requires g.Sized() && 0 < g.length <= CELLS
  {
    var head := Cells(g)[g.length - 1];
    var x, y := head.x + StepX(g.pending), head.y + StepY(g.pending);
    if 0 <= x < 20 && 0 <= y < 12 then Some(Cell(x, y)) else None
  }

  predicate StoppedWith(g: Game, g': Game, reason: nat)
    requires g.Sized() && g.length <= CELLS && g'.Sized() && g'.length <= CELLS
  {
    g'.mode == 4 && g'.reason == reason && Cells(g') == Cells(g) && g'.food == g.food && g'.score == g.score && g'.nextTick == 0
  }

  predicate MovedTo(g: Game, g': Game, c: Cell, now: uint32)
    requires g.Sized() && 0 < g.length <= CELLS && g'.Sized() && g'.length <= CELLS
  {
    && g'.mode == 2 && g'.reason == 0 && Cells(g') == Cells(g)[1..] + [c] && g'.food == g.food && g'.score == g.score
    && g'.nextTick == (now + g.interval) % 0x1_0000_0000
  }

  /** The snake grows onto the food; the game is won when it fills the board, else new food lies on a free cell. */
  predicate AteAt(g: Game, g': Game, c: Cell, now: uint32)
    requires g.Sized() && 0 < g.length <= CELLS && g'.Sized() && g'.length <= CELLS
  {
    && Cells(g') == Cells(g) + [c] && g'.score == g.score + 1
    && if g.length + 1 == 240 then g'.mode == 4 && g'.reason == 3 && g'.nextTick == 0
       else
         && g'.mode == 2 && g'.reason == 0 && OnBoard(g'.food) && g'.food !in Cells(g')
         && g'.nextTick == (now + g.interval) % 0x1_0000_0000
  }

  /** A tick of a running game: the head goes one cell in the direction last chosen. Off the board the game ends with
      WALL, on the food the snake grows, on any cell of the body but the tail the game ends with SELF, and otherwise
      the whole snake moves by one. */
  lemma StepExactly(g: Game, now: uint32)
    requires Inv(g) && g.active != 0 && g.mode == 2
    ensures var g', c := Step(g, now), Ahead(g);
            && g'.length <= CELLS && g'.dir == g'.pending == g.pending && g'.active == g.active && g'.interval == g.interval
            && if c == None then StoppedWith(g, g', 1)
               else if c.value == g.food then AteAt(g, g', c.value, now)
               else if c.value in Cells(g)[1..] then StoppedWith(g, g', 2)
               else MovedTo(g, g', c.value, now)
  {
    hide Cells, BodyOk, SpawnFood, Eat, Advance;
    var t := Turned(g);
    assert t == g.(dir := g.pending);
    SameCells(g, t);
    SameCells(g, Over(t, WALL));
    SameCells(g, Over(t, SELF));
    HeadCell(g);
    HeadOnBoard(g);
    var c := Target(t.body[t.head], t.dir);
    assert c == Ahead(g);
    if c.Some? {
      if c.value == g.food {
        EatExactly(g, t, now);
      } else if !Occupied(t, c.value, true) {
        MoveExactly(g, t, c.value, now);
      }
    }
  }

  lemma MoveExactly(g: Game, t: Game, c: Cell, now: uint32)
    requires Inv(g) && g.mode == PLAYING && t == g.(dir := g.pending)
    ensures var m := Advance(t, c);
            && m.(nextTick := Deadline(m, now)).length == g.length
            && MovedTo(g, m.(nextTick := Deadline(m, now)), c, now)
            && m.dir == m.pending == g.pending && m.active == g.active && m.interval == g.interval
  {
    hide Cells, BodyOk;
    SameCells(g, t);
    AdvanceCells(t, c);
    var m := Advance(t, c);
    SameCells(m, m.(nextTick := Deadline(m, now)));
  }

  lemma EatExactly(g: Game, t: Game, now: uint32)
    requires Inv(g) && g.mode == PLAYING && t == g.(dir := g.pending)
    ensures var e := Eat(Advance(t, g.food), now);
            && e.length <= CELLS && AteAt(g, e, g.food, now)
            && e.dir == e.pending == g.pending && e.active == g.active && e.interval == g.interval
  {
    hide Cells, BodyOk, SpawnFood;
    SameCells(g, t);
    AdvanceCells(t, g.food);
    var e := Grown(Advance(t, g.food));
    if e.length < CELLS {
      SpawnFinds(e);
      var f := SpawnFood(e);
      SameCells(e, f.(nextTick := Deadline(f, now)));
    } else {
      SameCells(e, Over(e, WIN));
    }
  }

  /** Without a running game a tick does nothing. */
  lemma StepIdle(g: Game, now: uint32)
    requires Inv(g) && (g.active == 0 || g.mode != 2)
    ensures Step(g, now) == g
  {
  }

  /** Direction keys by their character codes: w, d, s, a and their capitals. */
  predicate KeyFor(key: uint8, dir: uint8) {
    || (dir == 1 && (key == 119 || key == 87)) || (dir == 2 && (key == 100 || key == 68))
    || (dir == 3 && (key == 115 || key == 83)) || (dir == 4 && (key == 97 || key == 65))
  }

  /** A key of a running or paused game chooses its direction unless it is the one opposite to the last move
      (directions two apart); p pauses and resumes, q stops, r starts again, and every other key does nothing. */
  lemma PressExactly(g: Game, key: uint8, now: uint32)
    requires Inv(g)
    ensures forall d: uint8 :: KeyFor(key, d) && (g.mode == 2 || g.mode == 3) ==>
              Press(g, key, now) == if g.dir + 2 == d || d + 2 == g.dir then g else g.(pending := d)
    ensures key == 112 || key == 80 ==>
              Press(g, key, now) == if g.mode == 2 then g.(mode := 3, nextTick := 0)
                                    else if g.mode == 3
                                    then g.(mode := 2, nextTick := (now + g.interval) % 0x1_0000_0000)
                                    else g
    ensures key == 113 || key == 81 ==> Press(g, key, now) == g.(active := 0, nextTick := 0)
    ensures key == 114 || key == 82 ==> Started(Press(g, key, now), g, now)
    ensures (forall d: uint8 :: !KeyFor(key, d)) && key !in {112, 80, 113, 81, 114, 82} ==> Press(g, key, now) == g
    ensures g.mode != 2 && g.mode != 3 && key !in {113, 81, 114, 82} ==> Press(g, key, now) == g
  {
    hide StartGame, Cells, BodyOk;
    StartExactly(g, now);
    if forall d: uint8 :: !KeyFor(key, d) {
      assert !KeyFor(key, 1) && !KeyFor(key, 2) && !KeyFor(key, 3) && !KeyFor(key, 4);
    }
  }

  /** Three cells in the middle, heading right, with food on a free cell and the first step due after one interval. */
  predicate Started(g: Game, before: Game, now: uint32) {
    && g.Sized() && g.length == 3 && Cells(g) == [Cell(8, 6), Cell(9, 6), Cell(10, 6)] && g.dir == g.pending == 2
    && g.mode == 2 && g.reason == 0 && g.score == 0 && OnBoard(g.food) && g.food !in Cells(g)
    && g.active == before.active && g.interval == before.interval
    && g.nextTick == (now + before.interval) % 0x1_0000_0000
  }

  lemma StartExactly(g: Game, now: uint32)
    requires Inv(g)
    ensures Started(StartGame(g, now), g, now)
  {
    var body := NoBody()[0 := Cell(8, 6)][1 := Cell(9, 6)][2 := Cell(10, 6)];
    var s := g.(mode := PLAYING, dir := RIGHT, pending := RIGHT, length := 3, head := 2, body := body, score := 0,
                reason := NONE, nextTick := Deadline(g, now));
    assert Cells(s) == [Cell(8, 6), Cell(9, 6), Cell(10, 6)];
    hide Cells, SpawnFood;
    SpawnFinds(s);
    SameCells(s, SpawnFood(s));
  }

  // Saving and restoring

  const BLOB_BYTES: nat := 504

  function Blob(g: Game): (b: seq<uint8>)
    requires g.Sized()
    ensures |b| == BLOB_BYTES
  {
    [g.active, g.mode, g.dir, g.pending, g.length, g.head, g.food.x, g.food.y, g.reason] + g.reserved
    + Le32(g.score) + Le32(g.interval) + Le32(g.nextTick) + BodyBytes(g.body)
  }

  function BodyBytes(body: seq<Cell>): (b: seq<uint8>)
    ensures |b| == 2 * |body|
  {
    seq(2 * |body|, k requires 0 <= k < 2 * |body| => if k % 2 == 0 then body[k / 2].x else body[k / 2].y)
  }

  function BodyOf(b: seq<uint8>): (body: seq<Cell>)
    requires |b| % 2 == 0
    ensures |body| == |b| / 2
  {
    seq(|b| / 2, i requires 0 <= i < |b| / 2 => Cell(b[2 * i], b[2 * i + 1]))
  }

  function GameOf(b: seq<uint8>): (g: Game)
    requires |b| == BLOB_BYTES
    ensures g.Sized()
  {
    Game(b[0], b[1], b[2], b[3], b[4], b[5], Cell(b[6], b[7]), b[8], b[9..12], Load32(b, 12), Load32(b, 16),
         Load32(b, 20), BodyOf(b[24..]))
  }

  function Decode(b: seq<uint8>): Option<Game> {
    if |b| != BLOB_BYTES then None
    else if !StateValid(GameOf(b)) then None
    else Some(GameOf(b))
  }

  function Encode(g: Game, room: nat): Option<seq<uint8>>
    requires g.Sized()
  {
    if StateValid(g) && room >= BLOB_BYTES then Some(Blob(g)) else None
  }

  lemma BodyRoundTrip(body: seq<Cell>)
    ensures BodyOf(BodyBytes(body)) == body
  {
    forall i | 0 <= i < |body|
      ensures BodyOf(BodyBytes(body))[i] == body[i]
    {
      var b := BodyBytes(body);
      assert (2 * i) / 2 == i && (2 * i) % 2 == 0 && (2 * i + 1) / 2 == i && (2 * i + 1) % 2 == 1;
      assert b[2 * i] == body[i].x && b[2 * i + 1] == body[i].y;
    }
  }

  lemma GameOfBlob(g: Game)
    requires g.Sized()
    ensures GameOf(Blob(g)) == g
  {
    hide Le32, Load32, BodyBytes, BodyOf;
    var b := Blob(g);
    LoadStored32(b, 12, g.score);
    LoadStored32(b, 16, g.interval);
    LoadStored32(b, 20, g.nextTick);
    assert b[9..12] == g.reserved;
    assert b[24..] == BodyBytes(g.body);
    BodyRoundTrip(g.body);
  }

  /** Decoding gives back exactly what was encoded; an invalid state is refused by both. */
  lemma EncodeDecode(g: Game, room: nat)
    requires g.Sized()
    ensures Encode(g, room).Some? <==> StateValid(g) && room >= 504
    ensures Encode(g, room).Some? ==> Decode(Encode(g, room).value) == Some(g)
    ensures !StateValid(g) ==> Decode(Blob(g)) == None
  {
    hide StateValid, Blob, GameOf;
    GameOfBlob(g);
  }

  /** The running game after a restore of g. */
  function Restored(g: Game, now: uint32): Game {
    if g.active == 0 then Blank() else g.(nextTick := if g.mode == PLAYING then Deadline(g, now) else 0)
  }

  // Every run

  /** A start request, a timer tick, a key, losing the scheduler slot, or a checkpoint followed by its restore. */
  datatype Event = Begin | Tick(now: uint32) | Key(key: uint8, at: uint32) | Dropped | Reload(when: uint32)

  function Next(g: Game, e: Event): (g': Game)
    requires g.Sized() && g.length <= CELLS && g.head < CELLS
    ensures g'.Sized()
  {
    match e
    case Begin => if g.active != 0 then g else Blank().(active := 1)
    case Tick(now) => if g.active == 0 then g else Step(g, now)
    case Key(key, now) => if g.active == 0 then g else Press(g, key, now)
    case Dropped => g.(active := 0, nextTick := 0)
    case Reload(now) =>
      if g.active == 0 || Encode(g, BLOB_BYTES) == None then g
      else
        var r := Decode(Encode(g, BLOB_BYTES).value);
        if r == None then g else Restored(r.value, now)
  }

  lemma NextKeepsInv(g: Game, e: Event)
    requires Inv(g)
    ensures Inv(Next(g, e))
  {
    hide Step, Press, Cells, BodyOk, Encode, Decode, Heading;
    match e
    case Begin =>
    case Tick(now) =>
      StepKeepsInv(g, now);
    case Key(key, now) =>
      PressKeepsInv(g, key, now);
    case Dropped =>
      SameCells(g, g.(active := 0, nextTick := 0));
    case Reload(now) =>
      InvIsValid(g);
      EncodeDecode(g, BLOB_BYTES);
      if g.active != 0 {
        SameCells(g, Restored(g, now));
      }
  }

  /** States reached from power-on. */
  function Play(run: seq<Event>): (g: Game)
    ensures Inv(g)
  {
    if run == [] then Blank()
    else
      NextKeepsInv(Play(run[..|run| - 1]), run[|run| - 1]);
      Next(Play(run[..|run| - 1]), run[|run| - 1])
  }

  /** In every run, whatever keys, ticks and restores occur: the body is on the board, without repeats and connected;
      the score counts the growth; the food is off the body until the board is full; a step never runs back into
      the neck; and a restore would accept the state. */
  lemma EveryRun(run: seq<Event>)
    ensures var g := Play(run);
            && StateValid(g) && BodyOk(Cells(g)) && OnBoard(g.food)
            && (g.mode != TITLE ==> g.score == g.length - 3)
            && (g.length < CELLS ==> g.food !in Cells(g) || g.mode == TITLE)
            && (g.reason == WIN <==> g.length == CELLS)
            && (g.mode == PLAYING ==> NeckSafe(g))
  {
    hide Cells;
    var g := Play(run);
    InvIsValid(g);
    if g.mode == PLAYING {
      HeadCell(g);
      NeverOntoNeck(Cells(g)[g.length - 2], g.body[g.head], g.dir, g.pending);
    }
  }

  /** The cell the next step leads to is not the neck. */
  predicate NeckSafe(g: Game)
    requires g.Sized() && g.length <= CELLS && g.head < CELLS
  {
    g.length >= 2 && Target(g.body[g.head], Turned(g).dir) != Some(Cells(g)[g.length - 2])
  }
}
