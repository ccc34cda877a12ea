/**
 A player (game_objects/player.py): position and previous position, the heading as a key
 code, the trail left outside its territory, scores, the tick counter and the perks that
 bonuses change. `Player2` differs only in its key codes.
 */
module Players {

  import opened Wrappers
  import opened Geometry
  import opened Settings
  import opened Territories
  import opened Bonuses

  datatype Dir = Up | Down | Left | Right

  function Reverse(d: Dir): Dir
  {
    match d
    case Up => Down
    case Down => Up
    case Left => Right
    case Right => Left
  }

  function KeyOf(keys: KeyMap, d: Dir): int
  {
    match d
    case Up => keys.up
    case Down => keys.down
    case Left => keys.left
    case Right => keys.right
  }

  lemma KeysNamed(keys: KeyMap)
    ensures KeyOf(keys, Up) == keys.up && KeyOf(keys, Down) == keys.down
    ensures KeyOf(keys, Left) == keys.left && KeyOf(keys, Right) == keys.right
  {
  }

  /** One cell in direction `d`; y grows downwards on screen. */
  function Step(p: Point, d: Dir): Point
  {
    match d
    case Up => Point(p.x, p.y - 1)
    case Down => Point(p.x, p.y + 1)
    case Left => Point(p.x - 1, p.y)
    case Right => Point(p.x + 1, p.y)
  }

  datatype Player = Player(
    id: int,
    name: string,
    x: int, y: int,
    prevX: int, prevY: int,
    keys: KeyMap,            // move_commands
    nitroKey: int,           // extra_commands['nitro']
    territory: Territory,
    line: seq<Point>,        // line_points
    score: int,
    tickScore: int,
    direction: int,          // the key code of the current heading
    tick: int,
    perks: Perks)            // moveable_tick, extra_life, bonuses
  {
    function Head(): Point
    {
      Point(x, y)
    }

    function Prev(): Point
    {
      Point(prevX, prevY)
    }
  }

  /** A player steered by the arrow keys, standing still on its 3×3 home block. */
  function NewPlayer(cfg: Config, id: int, name: string, pos: Point, color: seq<int>): (p: Player)
    ensures p.Head() == pos && p.Prev() == pos
    ensures p.line == [] && p.score == 0 && p.tickScore == 0 && p.tick == 0
    ensures pos in p.territory.points && |p.territory.points| == 9
    ensures p.keys == cfg.arrows && p.direction == cfg.arrows.up
    ensures p.perks == Perks(cfg.moveableTicks, false, [])
  {
    Player(id, name, pos.x, pos.y, pos.x, pos.y, cfg.arrows, cfg.nitro1,
           NewTerritory(pos.x, pos.y, color), [], 0, 0, cfg.arrows.up, 0,
           Perks(cfg.moveableTicks, false, []))
  }

  /** The second player: the same start, steered by W, S, A, D. */
  function NewPlayer2(cfg: Config, id: int, name: string, pos: Point, color: seq<int>): (p: Player)
    ensures p.Head() == pos && p.Prev() == pos
    ensures p.line == [] && p.score == 0 && p.tickScore == 0 && p.tick == 0
    ensures pos in p.territory.points && |p.territory.points| == 9
    ensures p.territory == NewPlayer(cfg, id, name, pos, color).territory
    ensures p.keys == cfg.wasd && p.nitroKey == cfg.nitro2 && p.direction == cfg.wasd.up
    ensures p.perks == Perks(cfg.moveableTicks, false, [])
  {
    NewPlayer(cfg, id, name, pos, color).(keys := cfg.wasd, nitroKey := cfg.nitro2, direction := cfg.wasd.up)
  }

  // ---------------------------------------------------------------------------
  // Movement

  /** The direction of the last displacement; the x axis is looked at first. */
  function TrueDirection(p: Player): (r: Option<Dir>)
    ensures r.None? <==> p.Head() == p.Prev()
    ensures r == Some(Right) <==> p.x > p.prevX
    ensures r == Some(Left) <==> p.x < p.prevX
    ensures r == Some(Down) <==> p.x == p.prevX && p.y > p.prevY
    ensures r == Some(Up) <==> p.x == p.prevX && p.y < p.prevY
  {
    var dx := p.x - p.prevX;
    var dy := p.y - p.prevY;
    if dx > 0 then Some(Right)
    else if dx < 0 then Some(Left)
    else if dy > 0 then Some(Down)
    else if dy < 0 then Some(Up)
    else None
  }

  /**
   A command key turns the player unless it names the reverse of the true last
   displacement; any other key is ignored.
   */
  function ChangeDirection(p: Player, command: int): (r: Player)
    ensures r == p.(direction := r.direction)
    ensures (forall d :: command != KeyOf(p.keys, d)) ==> r == p
    ensures r.direction != p.direction ==>
              r.direction == command &&
              exists d :: command == KeyOf(p.keys, d) && TrueDirection(p) != Some(Reverse(d))
  {
    var td := TrueDirection(p);
    KeysNamed(p.keys);
    if command == p.keys.up && td != Some(Down) then p.(direction := p.keys.up)
    else if command == p.keys.down && td != Some(Up) then p.(direction := p.keys.down)
    else if command == p.keys.left && td != Some(Right) then p.(direction := p.keys.left)
    else if command == p.keys.right && td != Some(Left) then p.(direction := p.keys.right)
    else p
  }

  /** One cell in the heading's direction; the old position becomes the previous one. */
  function Move(p: Player): (r: Player)
    ensures r.Prev() == p.Head()
    ensures r == p.(x := r.x, y := r.y, prevX := p.x, prevY := p.y)
    ensures (exists d :: p.direction == KeyOf(p.keys, d)) ==> OrthogonalStep(p.Head(), r.Head())
    ensures (forall d :: p.direction != KeyOf(p.keys, d)) ==> r.Head() == p.Head()
  {
    var q := p.(prevX := p.x, prevY := p.y);
    KeysNamed(p.keys);
    if p.direction == p.keys.up then q.(y := p.y - 1)
    else if p.direction == p.keys.down then q.(y := p.y + 1)
    else if p.direction == p.keys.left then q.(x := p.x - 1)
    else if p.direction == p.keys.right then q.(x := p.x + 1)
    else q
  }

  /**
   With distinct keys a move goes one cell in the heading's direction, and the true
   direction read back afterwards is that heading; an unknown heading reads back as none.
   */
  lemma MoveThenTrueDirection(p: Player, d: Dir)
    requires p.keys.Distinct()
    ensures p.direction == KeyOf(p.keys, d) ==>
              Move(p).Head() == Step(p.Head(), d) && TrueDirection(Move(p)) == Some(d)
    ensures (forall e :: p.direction != KeyOf(p.keys, e)) ==> TrueDirection(Move(p)).None?
  {
  }

  /** The heading is never the reverse of the true last displacement. */
  predicate NoReverseHeading(p: Player)
  {
    forall d :: p.direction == KeyOf(p.keys, d) ==> TrueDirection(p) != Some(Reverse(d))
  }

  /**
   With distinct keys, a turn is never to the reverse of the true direction, and every
   command that is not such a reverse is taken.
   */
  lemma ChangeDirectionNoReverse(p: Player, command: int)
    requires p.keys.Distinct()
    ensures forall d :: ChangeDirection(p, command).direction == KeyOf(p.keys, d) &&
                        ChangeDirection(p, command).direction != p.direction ==>
                          TrueDirection(p) != Some(Reverse(d))
    ensures forall d :: command == KeyOf(p.keys, d) && TrueDirection(p) != Some(Reverse(d)) ==>
                          ChangeDirection(p, command).direction == command
    ensures NoReverseHeading(p) ==> NoReverseHeading(ChangeDirection(p, command))
  {
  }

  /**
   A new player has no displacement yet and a move re-establishes the heading invariant,
   so between moves the player can never make a U-turn.
   */
  lemma NoUTurn(p: Player)
    requires p.keys.Distinct() && NoReverseHeading(p)
    ensures NoReverseHeading(Move(p))
    ensures TrueDirection(p).Some? && TrueDirection(Move(p)).Some? ==>
              TrueDirection(Move(p)).value != Reverse(TrueDirection(p).value)
  {
    if TrueDirection(p).Some? && TrueDirection(Move(p)).Some? {
      var d :| p.direction == KeyOf(p.keys, d);
      MoveThenTrueDirection(p, d);
    }
  }

  lemma NewPlayerNoReverse(cfg: Config, id: int, name: string, pos: Point, color: seq<int>)
    ensures NoReverseHeading(NewPlayer(cfg, id, name, pos, color))
    ensures NoReverseHeading(NewPlayer2(cfg, id, name, pos, color))
  {
  }

  /** The head joins the trail once it leaves the territory, and every step after that. */
  function UpdateLine(p: Player): (r: Player)
    ensures r == p.(line := r.line)
    ensures p.Head() !in p.territory.points || |p.line| > 0 ==> r.line == p.line + [p.Head()]
    ensures p.Head() in p.territory.points && |p.line| == 0 ==> r.line == []
  {
    if p.Head() !in p.territory.points || |p.line| > 0 then p.(line := p.line + [p.Head()]) else p
  }

  /** A trail that is empty or starts outside the territory, as every trail the game lays does. */
  predicate StartsOutside(p: Player)
  {
    |p.line| > 0 ==> p.line[0] !in p.territory.points
  }

  /**
   Extending the trail keeps it starting outside the territory, keeps what was laid, and
   leaves it ending at the head whenever it is not empty.
   */
  lemma UpdateLineStartsOutside(p: Player)
    requires StartsOutside(p)
    ensures StartsOutside(UpdateLine(p))
    ensures |UpdateLine(p).line| > 0 ==> UpdateLine(p).line[|UpdateLine(p).line| - 1] == p.Head()
    ensures p.line <= UpdateLine(p).line
  {
  }

  // ---------------------------------------------------------------------------
  // Being eaten

  /** One entry of the grab table: the owner's roster index, its head, its proposed cells. */
  datatype Grab = Grab(owner: nat, head: Point, cells: set<Point>)

  /** The first other entry of the grab table whose cells hold `head`. */
  function IsEaten(me: nat, head: Point, grabs: seq<Grab>): (r: Option<nat>)
    ensures r.Some? <==> exists k | 0 <= k < |grabs| :: grabs[k].owner != me && head in grabs[k].cells
    ensures r.Some? ==> (r.value != me &&
              exists k | 0 <= k < |grabs| :: grabs[k].owner == r.value && head in grabs[k].cells)
  {
    if |grabs| == 0 then None
    else if grabs[0].owner != me && head in grabs[0].cells then Some(grabs[0].owner)
    else
      var r := IsEaten(me, head, grabs[1..]);
      assert forall k | 1 <= k < |grabs| :: grabs[k] == grabs[1..][k - 1];
      r
  }

  // ---------------------------------------------------------------------------
  // Nitro

  function HasNitroFrom(bs: seq<Bonus>, i: nat): bool
  {
    exists k | i <= k < |bs| :: bs[k].kind == Nitro
  }

  /** The loop of `nitro` from the `i`-th held bonus on. */
  function NitroFrom(cfg: Config, perks: Perks, activate: bool, i: nat): (r: Perks)
    requires i <= |perks.bonuses|
    ensures |r.bonuses| == |perks.bonuses| && r.extraLife == perks.extraLife
    ensures forall k | 0 <= k < |perks.bonuses| :: r.bonuses[k] ==
              if k >= i && perks.bonuses[k].kind == Nitro then perks.bonuses[k].(activated := activate)
              else perks.bonuses[k]
    ensures r.moveableTick == if !HasNitroFrom(perks.bonuses, i) then perks.moveableTick
                              else if activate then 1 else cfg.moveableTicks
    decreases |perks.bonuses| - i
  {
    if i == |perks.bonuses| then perks
    else
      var b := perks.bonuses[i];
      if b.Name() == Some("Nitro") then
        var marked := perks.(bonuses := perks.bonuses[i := b.(activated := activate)]);
        var next := if activate then marked.(moveableTick := 1) else Cancel(cfg, b, marked);
        NitroFrom(cfg, next, activate, i + 1)
      else
        NitroFrom(cfg, perks, activate, i + 1)
  }

  /**
   Switching the boost on sets the cadence to one tick per cell, switching it off restores
   the normal cadence; both only when a Nitro is held, and every held Nitro is flagged.
   */
  function NitroSwitch(cfg: Config, p: Player, activate: bool): (r: Player)
    ensures r == p.(perks := r.perks)
    ensures NitroCount(p.perks.bonuses) == 0 ==> r == p
    ensures NitroCount(p.perks.bonuses) > 0 ==>
              r.perks.moveableTick == if activate then 1 else cfg.moveableTicks
    ensures |r.perks.bonuses| == |p.perks.bonuses|
    ensures forall k | 0 <= k < |p.perks.bonuses| && p.perks.bonuses[k].kind == Nitro ::
              r.perks.bonuses[k].activated == activate
    ensures r.perks.extraLife == p.perks.extraLife
    ensures forall k | 0 <= k < |p.perks.bonuses| ::
              r.perks.bonuses[k] == if p.perks.bonuses[k].kind == Nitro
                                    then p.perks.bonuses[k].(activated := activate)
                                    else p.perks.bonuses[k]
  {
    var r := p.(perks := NitroFrom(cfg, p.perks, activate, 0));
    assert NitroCount(p.perks.bonuses) == 0 ==> r.perks.bonuses == p.perks.bonuses;
    r
  }

  // ---------------------------------------------------------------------------
  // Bonus countdown

  predicate Counting(b: Bonus)
  {
    b.Name() == Some("Nitro") && b.activated
  }

  /**
   The loop of `tick_action` as written: an active Nitro counts one tick and, once
   expired, is cancelled and removed from the list being iterated, so the iteration
   steps over the bonus that moved into its place.
   */
  function TickActionFrom(cfg: Config, perks: Perks, i: nat): Perks
    decreases |perks.bonuses| - i
  {
    if i >= |perks.bonuses| then perks
    else
      var b := perks.bonuses[i];
      if Counting(b) then
        var b' := b.(tick := b.tick + 1);
        if b'.tick >= b'.activeTicks then
          var cancelled := Cancel(cfg, b', perks);
          TickActionFrom(cfg, cancelled.(bonuses := perks.bonuses[..i] + perks.bonuses[i + 1..]), i + 1)
        else
          TickActionFrom(cfg, perks.(bonuses := perks.bonuses[i := b']), i + 1)
      else
        TickActionFrom(cfg, perks, i + 1)
  }

  /**
   One tick of the bonus countdown: only the perks change, an extra life survives it, no
   bonus is gained, and the cadence either stays or returns to the normal one.
   */
  function TickAction(cfg: Config, p: Player): (r: Player)
    ensures r == p.(perks := r.perks)
    ensures r.perks.extraLife == p.perks.extraLife
    ensures |r.perks.bonuses| <= |p.perks.bonuses|
    ensures r.perks.moveableTick == p.perks.moveableTick || r.perks.moveableTick == cfg.moveableTicks
  {
    TickActionFromFrame(cfg, p.perks, 0);
    p.(perks := TickActionFrom(cfg, p.perks, 0))
  }

  /**
   What the countdown from the `i`-th bonus on leaves alone: the extra life, the bonuses
   before `i`; it gains no bonus and sets the cadence to nothing but the normal one.
   */
  predicate CountdownFrame(cfg: Config, perks: Perks, r: Perks, i: nat)
  {
    && r.extraLife == perks.extraLife
    && |r.bonuses| <= |perks.bonuses|
    && (var n := if i <= |perks.bonuses| then i else |perks.bonuses|;
        n <= |r.bonuses| && r.bonuses[..n] == perks.bonuses[..n])
    && (r.moveableTick == perks.moveableTick || r.moveableTick == cfg.moveableTicks)
  }

  lemma {:induction false} TickActionFromFrame(cfg: Config, perks: Perks, i: nat)
    ensures CountdownFrame(cfg, perks, TickActionFrom(cfg, perks, i), i)
    decreases |perks.bonuses| - i
  {
    if i < |perks.bonuses| {
      var b := perks.bonuses[i];
      if Counting(b) {
        var b' := b.(tick := b.tick + 1);
        if b'.tick >= b'.activeTicks {
          var next := Cancel(cfg, b', perks).(bonuses := perks.bonuses[..i] + perks.bonuses[i + 1..]);
          TickActionFromFrame(cfg, next, i + 1);
          ExpiredFrame(cfg, perks, i, TickActionFrom(cfg, next, i + 1));
        } else {
          var next := perks.(bonuses := perks.bonuses[i := b']);
          TickActionFromFrame(cfg, next, i + 1);
          CountedFrame(cfg, perks, i, TickActionFrom(cfg, next, i + 1));
        }
      } else {
        TickActionFromFrame(cfg, perks, i + 1);
      }
    }
  }

  /** An expired Nitro is cancelled and dropped: the frame of the rest carries over. */
  lemma ExpiredFrame(cfg: Config, perks: Perks, i: nat, r: Perks)
    requires i < |perks.bonuses| && Counting(perks.bonuses[i])
    requires var b := perks.bonuses[i];
      CountdownFrame(cfg, Cancel(cfg, b.(tick := b.tick + 1), perks).(bonuses := perks.bonuses[..i] + perks.bonuses[i + 1..]), r, i + 1)
    ensures CountdownFrame(cfg, perks, r, i)
  {
    var b := perks.bonuses[i];
    var next := Cancel(cfg, b.(tick := b.tick + 1), perks).(bonuses := perks.bonuses[..i] + perks.bonuses[i + 1..]);
    assert next.bonuses[..i] == perks.bonuses[..i];
    var n := if i + 1 <= |next.bonuses| then i + 1 else |next.bonuses|;
    assert r.bonuses[..i] == r.bonuses[..n][..i];
  }

  /** A Nitro still running counts one tick: the frame of the rest carries over. */
  lemma CountedFrame(cfg: Config, perks: Perks, i: nat, r: Perks)
    requires i < |perks.bonuses|
    requires var b := perks.bonuses[i];
      CountdownFrame(cfg, perks.(bonuses := perks.bonuses[i := b.(tick := b.tick + 1)]), r, i + 1)
    ensures CountdownFrame(cfg, perks, r, i)
  {
    var b := perks.bonuses[i];
    var next := perks.(bonuses := perks.bonuses[i := b.(tick := b.tick + 1)]);
    assert next.bonuses[..i] == perks.bonuses[..i];
    assert r.bonuses[..i] == r.bonuses[..i + 1][..i];
  }

  /** The countdown as meant: the bonus after a removed one is examined too. */
  function IntendedTickFrom(cfg: Config, perks: Perks, i: nat): Perks
    decreases |perks.bonuses| - i, if i < |perks.bonuses| && Counting(perks.bonuses[i]) then 1 else 0
  {
    if i >= |perks.bonuses| then perks
    else
      var b := perks.bonuses[i];
      if Counting(b) then
        var b' := b.(tick := b.tick + 1);
        if b'.tick >= b'.activeTicks then
          var cancelled := Cancel(cfg, b', perks);
          IntendedTickFrom(cfg, cancelled.(bonuses := perks.bonuses[..i] + perks.bonuses[i + 1..]), i)
        else
          IntendedTickFrom(cfg, perks.(bonuses := perks.bonuses[i := b']), i + 1)
      else
        IntendedTickFrom(cfg, perks, i + 1)
  }

  lemma {:induction false} NoNitroFromIsIdle(cfg: Config, perks: Perks, i: nat)
    requires !HasNitroFrom(perks.bonuses, i)
    ensures TickActionFrom(cfg, perks, i) == perks
    ensures IntendedTickFrom(cfg, perks, i) == perks
    decreases |perks.bonuses| - i
  {
    if i < |perks.bonuses| {
      assert !Counting(perks.bonuses[i]);
      NoNitroFromIsIdle(cfg, perks, i + 1);
    }
  }

  /**
   While at most one Nitro is held, which picking bonuses up maintains, the countdown as
   written and the countdown as meant agree.
   */
  lemma {:induction false} TickActionAsIntended(cfg: Config, perks: Perks, i: nat)
    requires forall k, m | i <= k < m < |perks.bonuses| :: !(perks.bonuses[k].kind == Nitro && perks.bonuses[m].kind == Nitro)
    ensures TickActionFrom(cfg, perks, i) == IntendedTickFrom(cfg, perks, i)
    decreases |perks.bonuses| - i
  {
    if i < |perks.bonuses| {
      var bs := perks.bonuses;
      var b := bs[i];
      if Counting(b) {
        var b' := b.(tick := b.tick + 1);
        if b'.tick >= b'.activeTicks {
          var rest := Cancel(cfg, b', perks).(bonuses := bs[..i] + bs[i + 1..]);
          assert forall k | i <= k < |rest.bonuses| :: rest.bonuses[k] == bs[k + 1];
          NoNitroFromIsIdle(cfg, rest, i + 1);
          NoNitroFromIsIdle(cfg, rest, i);
        } else {
          var next := perks.(bonuses := bs[i := b']);
          TickActionAsIntended(cfg, next, i + 1);
        }
      } else {
        TickActionAsIntended(cfg, perks, i + 1);
      }
    }
  }


  /** With no running Nitro from position `i` on, the countdown changes nothing. */
  lemma {:induction false} NothingCountingIsIdle(cfg: Config, perks: Perks, i: nat)
    requires forall k | i <= k < |perks.bonuses| :: !Counting(perks.bonuses[k])
    ensures TickActionFrom(cfg, perks, i) == perks
    decreases |perks.bonuses| - i
  {
    if i < |perks.bonuses| {
      NothingCountingIsIdle(cfg, perks, i + 1);
    }
  }

  /** The countdown from `i` on, when the one running Nitro sits at `j`. */
  lemma {:induction false} CountdownFrom(cfg: Config, perks: Perks, i: nat, j: nat)
    requires i <= j < |perks.bonuses| && Counting(perks.bonuses[j])
    requires forall k | i <= k < |perks.bonuses| && k != j :: !Counting(perks.bonuses[k])
    ensures var bs, b, r := perks.bonuses, perks.bonuses[j], TickActionFrom(cfg, perks, i);
      && r.extraLife == perks.extraLife
      && (b.tick + 1 < b.activeTicks ==>
            r.bonuses == bs[j := b.(tick := b.tick + 1)] && r.moveableTick == perks.moveableTick)
      && (b.tick + 1 >= b.activeTicks ==>
            r.bonuses == bs[..j] + bs[j + 1..] && r.moveableTick == cfg.moveableTicks)
    decreases j - i
  {
    var bs, b := perks.bonuses, perks.bonuses[j];
    if i < j {
      CountdownFrom(cfg, perks, i + 1, j);
    } else {
      var b' := b.(tick := b.tick + 1);
      if b'.tick >= b'.activeTicks {
        var rest := Cancel(cfg, b', perks).(bonuses := bs[..j] + bs[j + 1..]);
        assert forall k | j + 1 <= k < |rest.bonuses| :: rest.bonuses[k] == bs[k + 1];
        NothingCountingIsIdle(cfg, rest, j + 1);
      } else {
        var next := perks.(bonuses := bs[j := b']);
        NothingCountingIsIdle(cfg, next, j + 1);
      }
    }
  }

  /**
   One tick of the countdown with a single running Nitro: it counts one more tick, and on
   reaching its duration it is dropped and the normal cadence returns. Every other bonus
   and the extra life stay as they were.
   */
  lemma TickActionCountdown(cfg: Config, p: Player, j: nat)
    requires j < |p.perks.bonuses| && Counting(p.perks.bonuses[j])
    requires forall k | 0 <= k < |p.perks.bonuses| && k != j :: !Counting(p.perks.bonuses[k])
    ensures var bs, b, r := p.perks.bonuses, p.perks.bonuses[j], TickAction(cfg, p);
      && r == p.(perks := r.perks)
      && r.perks.extraLife == p.perks.extraLife
      && (b.tick + 1 < b.activeTicks ==>
            r.perks.bonuses == bs[j := b.(tick := b.tick + 1)] && r.perks.moveableTick == p.perks.moveableTick)
      && (b.tick + 1 >= b.activeTicks ==>
            r.perks.bonuses == bs[..j] + bs[j + 1..] && r.perks.moveableTick == cfg.moveableTicks)
  {
    CountdownFrom(cfg, p.perks, 0, j);
  }

  /** Without a running Nitro a tick of the countdown changes nothing. */
  lemma TickActionIdle(cfg: Config, p: Player)
    requires forall k | 0 <= k < |p.perks.bonuses| :: !Counting(p.perks.bonuses[k])
    ensures TickAction(cfg, p) == p
  {
    NothingCountingIsIdle(cfg, p.perks, 0);
  }

}
