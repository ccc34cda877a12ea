/**
 One game tick (game_objects/scene.py, `GameScene.__update`): advance tick counters, move,
 extend trails and propose captures, catch losers, resolve simultaneous captures, commit
 them, drop losers and settle scores. Players are identified by their index in the roster
 for the whole tick, as the Python objects are by identity.
 */
module Scene {

  import opened Wrappers
  import opened Geometry
  import opened Settings
  import opened Territories
  import opened Players

  /** No two players own the same cell. */
  predicate PairwiseDisjoint(players: seq<Player>)
  {
    forall a, b | 0 <= a < |players| && 0 <= b < |players| && a != b ::
      players[a].territory.points !! players[b].territory.points
  }

  /** A grab table has at most one entry per player, as a dictionary has. */
  predicate DistinctOwners(grabs: seq<Grab>)
  {
    forall a, b | 0 <= a < b < |grabs| :: grabs[a].owner != grabs[b].owner
  }

  // ---------------------------------------------------------------------------
  // Collision resolution

  /** Whether no entry of `all` other than the player's own covers its head. */
  predicate Uneaten(all: seq<Grab>, g: Grab)
  {
    IsEaten(g.owner, g.head, all).None?
  }

  /** The entries of `grabs` whose owner is not eaten by any entry of `all`, in order. */
  function Survivors(grabs: seq<Grab>, all: seq<Grab>): (r: seq<Grab>)
    ensures forall g :: g in r <==> g in grabs && Uneaten(all, g)
  {
    if |grabs| == 0 then []
    else
      var rest := Survivors(grabs[1..], all);
      assert forall g | g in grabs :: g == grabs[0] || g in grabs[1..];
      if Uneaten(all, grabs[0]) then [grabs[0]] + rest else rest
  }

  /** Everything claimed in `grabs` by players `i` and later other than `o`. */
  function ClaimsOfOthers(grabs: seq<Grab>, o: nat, i: nat): set<Point>
  {
    if |grabs| == 0 then {}
    else (if grabs[0].owner >= i && grabs[0].owner != o then grabs[0].cells else {}) + ClaimsOfOthers(grabs[1..], o, i)
  }

  /** The claims of others are exactly the cells of the entries of players `i` and later other than `o`. */
  lemma {:induction false} ClaimsOfOthersMembers(grabs: seq<Grab>, o: nat, i: nat)
    ensures forall c :: c in ClaimsOfOthers(grabs, o, i) <==>
              exists g | g in grabs :: g.owner >= i && g.owner != o && c in g.cells
  {
    if |grabs| > 0 {
      ClaimsOfOthersMembers(grabs[1..], o, i);
      assert forall g | g in grabs[1..] :: g in grabs;
      assert forall g | g in grabs :: g == grabs[0] || g in grabs[1..];
    }
  }


  /** The cells of an entry of another player `i` or later are among the claims of others. */
  lemma {:induction false} ClaimedByOther(grabs: seq<Grab>, o: nat, i: nat, g: Grab)
    requires g in grabs && g.owner >= i && g.owner != o
    ensures g.cells <= ClaimsOfOthers(grabs, o, i)
  {
    if grabs[0] != g {
      assert g in grabs[1..];
      ClaimedByOther(grabs[1..], o, i, g);
    }
  }

  /**
   Eaten players lose their entry; every surviving entry loses each cell that another
   survivor also claims, so a contested cell goes to no one.
   */
  function CollisionResolution(grabs: seq<Grab>): (r: seq<Grab>)
    ensures var pg := Survivors(grabs, grabs);
      && |r| == |pg|
      && forall k | 0 <= k < |r| ::
           r[k].owner == pg[k].owner && r[k].head == pg[k].head && r[k].cells <= pg[k].cells
    ensures forall a, b | 0 <= a < |r| && 0 <= b < |r| && r[a].owner != r[b].owner :: r[a].cells !! r[b].cells
  {
    var pg := Survivors(grabs, grabs);
    var r := seq(|pg|, k requires 0 <= k < |pg| => pg[k].(cells := pg[k].cells - ClaimsOfOthers(pg, pg[k].owner, 0)));
    assert forall a, b | 0 <= a < |r| && 0 <= b < |r| && r[a].owner != r[b].owner :: r[a].cells !! r[b].cells by {
      forall a, b | 0 <= a < |r| && 0 <= b < |r| && r[a].owner != r[b].owner
        ensures r[a].cells !! r[b].cells
      {
        assert pg[b] in pg;
        ClaimedByOther(pg, pg[a].owner, 0, pg[b]);
      }
    }
    r
  }

  /** A resolved entry keeps exactly the cells of its grab that no other survivor claims. */
  lemma ResolutionCells(grabs: seq<Grab>, k: nat)
    requires k < |CollisionResolution(grabs)|
    ensures var pg := Survivors(grabs, grabs);
      var r := CollisionResolution(grabs);
      forall c :: c in r[k].cells <==> c in pg[k].cells && forall g | g in pg && g.owner != r[k].owner :: c !in g.cells
  {
    var pg := Survivors(grabs, grabs);
    ClaimsOfOthersMembers(pg, pg[k].owner, 0);
  }

  /** With one entry per player, the players left in the resolved table are exactly the uneaten ones. */
  lemma ResolutionKeepsUneaten(grabs: seq<Grab>)
    requires DistinctOwners(grabs)
    ensures forall g | g in grabs ::
              (exists k | 0 <= k < |CollisionResolution(grabs)| :: CollisionResolution(grabs)[k].owner == g.owner)
                <==> Uneaten(grabs, g)
  {
    var pg := Survivors(grabs, grabs);
    var r := CollisionResolution(grabs);
    forall g | g in grabs
      ensures (exists k | 0 <= k < |r| :: r[k].owner == g.owner) <==> Uneaten(grabs, g)
    {
      if Uneaten(grabs, g) {
        assert g in pg;
        var k :| 0 <= k < |pg| && pg[k] == g;
        assert r[k].owner == g.owner;
      }
      if k :| 0 <= k < |r| && r[k].owner == g.owner {
        assert pg[k] in pg;
        var m :| 0 <= m < |grabs| && pg[k] == grabs[m];
        var n :| 0 <= n < |grabs| && grabs[n] == g;
        assert m == n;
      }
    }
  }

  /** A cell that two uneaten players both claimed is in neither player's resolved grab. */
  lemma ContestedCellsDropped(grabs: seq<Grab>, g1: Grab, g2: Grab, c: Point)
    requires g1 in grabs && g2 in grabs && g1.owner != g2.owner
    requires c in g1.cells && c in g2.cells && Uneaten(grabs, g1) && Uneaten(grabs, g2)
    ensures forall k | 0 <= k < |CollisionResolution(grabs)| ::
              c !in CollisionResolution(grabs)[k].cells ||
              (CollisionResolution(grabs)[k].owner != g1.owner && CollisionResolution(grabs)[k].owner != g2.owner)
  {
    var pg := Survivors(grabs, grabs);
    var r := CollisionResolution(grabs);
    forall k | 0 <= k < |r| && (r[k].owner == g1.owner || r[k].owner == g2.owner)
      ensures c !in r[k].cells
    {
      if r[k].owner == g1.owner {
        ClaimedByOther(pg, pg[k].owner, 0, g2);
      } else {
        ClaimedByOther(pg, pg[k].owner, 0, g1);
      }
    }
  }

  // ---------------------------------------------------------------------------
  // Elimination

  /** `line_points[:-1]`: the trail without its newest cell. */
  function Init(s: seq<Point>): (r: seq<Point>)
    ensures |s| > 0 ==> r == s[..|s| - 1]
    ensures |s| == 0 ==> r == []
  {
    if |s| == 0 then [] else s[..|s| - 1]
  }

  /** Dropping the newest cell and putting it back gives the trail again. */
  lemma InitThenNewest(s: seq<Point>)
    requires |s| > 0
    ensures Init(s) + [s[|s| - 1]] == s
    ensures |Init(s)| == |s| - 1 && forall k | 0 <= k < |s| - 1 :: Init(s)[k] == s[k]
  {
  }

  predicate OutOfField(cfg: Config, p: Player)
  {
    p.y < 0 || p.y >= cfg.yCells || p.x < 0 || p.x >= cfg.xCells
  }

  /** The conditions under which player `i` loses, each sufficient on its own. */
  predicate LoseCondition(cfg: Config, i: nat, players: seq<Player>)
    requires i < |players|
  {
    var p := players[i];
    var tail := Init(p.line);
    || OutOfField(cfg, p)
    || p.Head() in tail
    || (exists m | 0 <= m < |players| :: players[m].Head() in tail)
    || (exists m | 0 <= m < |players| :: m != i && players[m].Head() == p.Head() && |p.line| >= |players[m].line|)
    || |p.territory.points| == 0
  }

  /** Whether player `m` earns the line-kill bonus by standing on player `i`'s trail. */
  predicate Kills(players: seq<Player>, m: nat, i: nat)
    requires m < |players| && i < |players|
  {
    m != i && players[m].Head() in Init(players[i].line)
  }

  /**
   The loop over players whose head lies on `tail`, player `i`'s trail: each one other
   than `i` earns the line-kill bonus.
   */
  function LineCrossFrom(cfg: Config, players: seq<Player>, i: nat, tail: seq<Point>, j: nat)
    : (r: (bool, seq<Player>))
    requires i < |players| && j <= |players|
    ensures |r.1| == |players|
    ensures r.0 <==> exists m | j <= m < |players| :: players[m].Head() in tail
    ensures forall m | 0 <= m < |players| ::
              r.1[m] == if j <= m && m != i && players[m].Head() in tail
                        then players[m].(tickScore := players[m].tickScore + cfg.lineKillScore)
                        else players[m]
    decreases |players| - j
  {
    if j == |players| then (false, players)
    else
      var p := players[j];
      var credited := if p.Head() in tail && j != i
                      then players[j := p.(tickScore := p.tickScore + cfg.lineKillScore)] else players;
      var rest := LineCrossFrom(cfg, credited, i, tail, j + 1);
      (p.Head() in tail || rest.0, rest.1)
  }

  /** The loop over players on the same cell as `i` whose trail is no longer than `i`'s. */
  function HeadOnFrom(players: seq<Player>, i: nat, j: nat): (r: bool)
    requires i < |players| && j <= |players|
    ensures r <==> exists m | j <= m < |players| ::
              m != i && players[m].Head() == players[i].Head() && |players[i].line| >= |players[m].line|
    decreases |players| - j
  {
    if j == |players| then false
    else
      (j != i && players[j].Head() == players[i].Head() && |players[i].line| >= |players[j].line|)
        || HeadOnFrom(players, i, j + 1)
  }

  /**
   Whether player `i` loses this tick, and the roster with the line-kill bonus credited
   to every other player whose head lies on `i`'s trail.
   */
  function IsPlayerLose(cfg: Config, i: nat, players: seq<Player>): (r: (bool, seq<Player>))
    requires i < |players|
    ensures r.0 <==> LoseCondition(cfg, i, players)
    ensures |r.1| == |players|
    ensures forall m | 0 <= m < |players| ::
              r.1[m] == players[m].(tickScore := players[m].tickScore +
                                                 if Kills(players, m, i) then cfg.lineKillScore else 0)
  {
    var p := players[i];
    var tail := Init(p.line);
    var bordered := OutOfField(cfg, p) || p.Head() in tail;
    var crossed := LineCrossFrom(cfg, players, i, tail, 0);
    var faced := HeadOnFrom(players, i, 0);
    (bordered || crossed.0 || faced || |p.territory.points| == 0, crossed.1)
  }

  /** In a head-on collision with trails of equal length, both players lose. */
  lemma HeadOnEqualBothLose(cfg: Config, players: seq<Player>, i: nat, j: nat)
    requires i < |players| && j < |players| && i != j
    requires players[i].Head() == players[j].Head() && |players[i].line| == |players[j].line|
    ensures IsPlayerLose(cfg, i, players).0 && IsPlayerLose(cfg, j, players).0
  {
  }

  /** A head-on collision is lost by the player whose trail is at least as long. */
  lemma HeadOnLongerLoses(cfg: Config, players: seq<Player>, i: nat, j: nat)
    requires i < |players| && j < |players| && i != j
    requires players[i].Head() == players[j].Head() && |players[i].line| >= |players[j].line|
    ensures IsPlayerLose(cfg, i, players).0
  {
  }

  /** Rosters that differ at most in pending tick scores. */
  predicate OnlyScoresDiffer(a: seq<Player>, b: seq<Player>)
  {
    |a| == |b| && forall m | 0 <= m < |a| :: a[m] == b[m].(tickScore := a[m].tickScore)
  }

  lemma ScoresDoNotDecide(cfg: Config, a: seq<Player>, b: seq<Player>, i: nat)
    requires OnlyScoresDiffer(a, b) && i < |a|
    ensures LoseCondition(cfg, i, a) == LoseCondition(cfg, i, b)
    ensures forall m | 0 <= m < |a| :: Kills(a, m, i) == Kills(b, m, i)
  {
    assert forall m | 0 <= m < |a| :: a[m].Head() == b[m].Head() && a[m].line == b[m].line;
  }

  /** The line-kill bonus player `m` earns from the trails of players `i` and later. */
  function KillBonus(cfg: Config, players: seq<Player>, m: nat, i: nat): int
    requires m < |players| && i <= |players|
    decreases |players| - i
  {
    if i == |players| then 0
    else (if Kills(players, m, i) then cfg.lineKillScore else 0) + KillBonus(cfg, players, m, i + 1)
  }

  lemma {:induction false} KillBonusFrame(cfg: Config, a: seq<Player>, b: seq<Player>, m: nat, i: nat)
    requires OnlyScoresDiffer(a, b) && m < |a| && i <= |a|
    ensures KillBonus(cfg, a, m, i) == KillBonus(cfg, b, m, i)
    decreases |a| - i
  {
    if i < |a| {
      assert a[m].Head() == b[m].Head() && a[i].line == b[i].line;
      KillBonusFrame(cfg, a, b, m, i + 1);
    }
  }

  /**
   The loop that catches losers from player `i` on: the losers are exactly the players
   meeting a lose condition, and only pending scores change along the way.
   */
  function CatchLosers(cfg: Config, players: seq<Player>, i: nat): (r: (set<nat>, seq<Player>))
    requires i <= |players|
    ensures OnlyScoresDiffer(r.1, players)
    ensures forall m :: m in r.0 <==> i <= m < |players| && LoseCondition(cfg, m, players)
    decreases |players| - i
  {
    if i == |players| then ({}, players)
    else
      var step := IsPlayerLose(cfg, i, players);
      var rest := CatchLosers(cfg, step.1, i + 1);
      CatchStep(cfg, players, step.1, rest, i);
      ((if step.0 then {i} else {}) + rest.0, rest.1)
  }

  lemma IsPlayerLoseScoresOnly(cfg: Config, i: nat, players: seq<Player>)
    requires i < |players|
    ensures OnlyScoresDiffer(IsPlayerLose(cfg, i, players).1, players)
  {
  }

  /** One step of the loop: crediting kill bonuses decides no later player's fate. */
  lemma CatchStep(cfg: Config, players: seq<Player>, mid: seq<Player>, rest: (set<nat>, seq<Player>), i: nat)
    requires i < |players| && mid == IsPlayerLose(cfg, i, players).1 && OnlyScoresDiffer(rest.1, mid)
    requires forall m :: m in rest.0 <==> i + 1 <= m < |mid| && LoseCondition(cfg, m, mid)
    ensures OnlyScoresDiffer(rest.1, players)
    ensures forall m :: m in (if IsPlayerLose(cfg, i, players).0 then {i} else {}) + rest.0 <==>
              i <= m < |players| && LoseCondition(cfg, m, players)
  {
    IsPlayerLoseScoresOnly(cfg, i, players);
    forall m | i + 1 <= m < |players| ensures LoseCondition(cfg, m, mid) == LoseCondition(cfg, m, players) {
      ScoresDoNotDecide(cfg, mid, players, m);
    }
  }


  /** Each player's pending score grows by the line-kill bonus once per trail its head lies on. */
  lemma {:induction false} CatchLosersScore(cfg: Config, players: seq<Player>, i: nat, m: nat)
    requires i <= |players| && m < |players|
    ensures CatchLosers(cfg, players, i).1[m].tickScore == players[m].tickScore + KillBonus(cfg, players, m, i)
    decreases |players| - i
  {
    if i < |players| {
      var step := IsPlayerLose(cfg, i, players);
      CatchLosersScore(cfg, step.1, i + 1, m);
      assert CatchLosers(cfg, players, i).1 == CatchLosers(cfg, step.1, i + 1).1;
      IsPlayerLoseScoresOnly(cfg, i, players);
      KillBonusFrame(cfg, step.1, players, m, i + 1);
      assert step.1[m].tickScore == players[m].tickScore + if Kills(players, m, i) then cfg.lineKillScore else 0;
    }
  }

  // ---------------------------------------------------------------------------
  // Capture proposals

  /** Whether the player steps on this tick. */
  predicate Moves(p: Player)
  {
    p.tick % p.perks.moveableTick == 0
  }

  /**
   Whether a player moves repeats with the period of its cadence, and at a cadence of
   one tick per cell (a boosted player) it moves on every tick.
   */
  lemma {:induction false} MovesPeriodic(p: Player, k: nat)
    ensures Moves(p.(tick := p.tick + k * p.perks.moveableTick)) == Moves(p)
    ensures p.perks.moveableTick == 1 ==> Moves(p)
  {
    if k > 0 {
      MovesPeriodic(p, k - 1);
      var m := p.perks.moveableTick;
      var t := p.tick + (k - 1) * m;
      assert t + m == p.tick + k * m;
      ModShift(t, m);
    }
  }

  /** A player's state after proposing a capture, and its proposal if it moved. */
  datatype Proposal = Proposal(player: Player, grab: Option<set<Point>>)

  /**
   A moving player extends its trail and asks its territory for a capture; a non-empty
   proposal clears the trail and earns the neutral rate per cell at once, before any
   collision is resolved.
   */
  function GrabOne(cfg: Config, p: Player, f: PathFinder): (s: Proposal)
    ensures !Moves(p) ==> s == Proposal(p, None)
    ensures Moves(p) ==> s.grab.Some?
    ensures s.player.territory.points == p.territory.points && s.player.Head() == p.Head()
    ensures s.player == p.(territory := s.player.territory, line := s.player.line, tickScore := s.player.tickScore)
    ensures s.grab.Some? ==>
              var q := UpdateLine(p);
              var c := s.grab.value;
              && c == Capture(q.territory, q.line, f).0
              && c !! p.territory.points
              && (c != {} ==> s.player.line == [] && s.player.tickScore == p.tickScore + cfg.neutralScore * |c|)
              && (c == {} ==> s.player.line == q.line && s.player.tickScore == p.tickScore)
  {
    if Moves(p) then
      var q := UpdateLine(p);
      var cap := Capture(q.territory, q.line, f);
      var captured := cap.0;
      var q' := q.(territory := cap.1);
      if |captured| > 0 then
        Proposal(q'.(line := [], tickScore := q'.tickScore + cfg.neutralScore * |captured|), Some(captured))
      else
        Proposal(q', Some(captured))
    else Proposal(p, None)
  }

  /** The grab table: one entry per moving player, in roster order. */
  function Collect(steps: seq<Proposal>, i: nat): (r: seq<Grab>)
    requires i <= |steps|
    ensures forall k | 0 <= k < |r| ::
              && i <= r[k].owner < |steps|
              && steps[r[k].owner].grab == Some(r[k].cells)
              && r[k].head == steps[r[k].owner].player.Head()
    ensures forall a, b | 0 <= a < b < |r| :: r[a].owner < r[b].owner
    decreases |steps| - i
  {
    if i == |steps| then []
    else if steps[i].grab.Some? then [Grab(i, steps[i].player.Head(), steps[i].grab.value)] + Collect(steps, i + 1)
    else Collect(steps, i + 1)
  }

  /** Every player that moved has an entry in the grab table. */
  lemma {:induction false} CollectCovers(steps: seq<Proposal>, i: nat, j: nat)
    requires i <= j < |steps| && steps[j].grab.Some?
    ensures Grab(j, steps[j].player.Head(), steps[j].grab.value) in Collect(steps, i)
    decreases j - i
  {
    if i < j {
      CollectCovers(steps, i + 1, j);
      var g := Grab(j, steps[j].player.Head(), steps[j].grab.value);
      assert g in Collect(steps, i + 1);
      var here := if steps[i].grab.Some? then [Grab(i, steps[i].player.Head(), steps[i].grab.value)] else [];
      assert Collect(steps, i) == here + Collect(steps, i + 1);
    }
  }


  // ---------------------------------------------------------------------------
  // Commit

  /** `players_grabs.get(player, set())`. */
  function Lookup(grabs: seq<Grab>, i: nat): set<Point>
  {
    if |grabs| == 0 then {}
    else if grabs[0].owner == i then grabs[0].cells
    else Lookup(grabs[1..], i)
  }

  /** With one entry per player, the lookup is exactly that player's entry, and empty without one. */
  lemma {:induction false} LookupMembers(grabs: seq<Grab>, i: nat)
    ensures (forall g | g in grabs :: g.owner != i) ==> Lookup(grabs, i) == {}
    ensures DistinctOwners(grabs) ==>
              forall c :: c in Lookup(grabs, i) <==> exists g | g in grabs :: g.owner == i && c in g.cells
  {
    if |grabs| > 0 {
      LookupMembers(grabs[1..], i);
      assert forall g | g in grabs[1..] :: g in grabs;
      assert forall g | g in grabs :: g == grabs[0] || g in grabs[1..];
      if grabs[0].owner == i && DistinctOwners(grabs) {
        forall g | g in grabs && g.owner == i ensures g == grabs[0] {
          var k :| 0 <= k < |grabs| && grabs[k] == g;
          assert k == 0;
        }
      }
    }
  }


  /** How many cells of `cells` the players from `j` on, other than `i`, own. */
  function Annexed(players: seq<Player>, i: nat, cells: set<Point>, j: nat): nat
    requires j <= |players|
    decreases |players| - j
  {
    if j == |players| then 0
    else (if j != i then |cells * players[j].territory.points| else 0) + Annexed(players, i, cells, j + 1)
  }

  /** Player `p` after giving up `cells`. */
  function Debit(p: Player, cells: set<Point>): (r: Player)
    ensures r.territory.points == p.territory.points - cells
    ensures r.territory.color == p.territory.color
  {
    p.(territory := RemovePoints(p.territory, cells).1)
  }

  /**
   One pass of the outer commit loop, for player `i` and its resolved grab `cells`: `i`
   gains the cells, every other player gives them up, and `i` earns the difference between
   the enemy and neutral rates for each cell it took from someone. The inner loop touches
   each other player once, so it is written here as a map; the per-iteration credits add
   up to the rate times the total.
   */
  function CommitOne(cfg: Config, players: seq<Player>, i: nat, cells: set<Point>): (r: seq<Player>)
    requires i < |players|
    ensures |r| == |players|
  {
    var owner := players[i];
    var gain := (cfg.enemyScore - cfg.neutralScore) * Annexed(players, i, cells, 0);
    assert cfg.neutralScore <= cfg.enemyScore ==> gain >= 0 by {
      if cfg.neutralScore <= cfg.enemyScore {
        MulNonneg(cfg.enemyScore - cfg.neutralScore, Annexed(players, i, cells, 0));
      }
    }
    var gained := owner.(territory := owner.territory.(points := owner.territory.points + cells),
                         tickScore := owner.tickScore + gain);
    seq(|players|, m requires 0 <= m < |players| => if m == i then gained else Debit(players[m], cells))
  }

  /**
   A commit step gives the grab to player `i` and takes it from everyone else, changes only
   territories and pending scores, and lowers no pending score when the enemy rate is at
   least the neutral rate.
   */
  lemma CommitOneAt(cfg: Config, players: seq<Player>, i: nat, cells: set<Point>, m: nat)
    requires i < |players| && m < |players|
    ensures var r := CommitOne(cfg, players, i, cells);
      && r[m].territory.points == (if m == i then players[m].territory.points + cells else players[m].territory.points - cells)
      && r[m] == players[m].(territory := r[m].territory, tickScore := r[m].tickScore)
      && r[m].tickScore == players[m].tickScore +
           (if m == i then (cfg.enemyScore - cfg.neutralScore) * Annexed(players, i, cells, 0) else 0)
      && (cfg.neutralScore <= cfg.enemyScore ==> r[m].tickScore >= players[m].tickScore)
  {
    var gain := (cfg.enemyScore - cfg.neutralScore) * Annexed(players, i, cells, 0);
    if cfg.neutralScore <= cfg.enemyScore {
      MulNonneg(cfg.enemyScore - cfg.neutralScore, Annexed(players, i, cells, 0));
    }
  }

  /** A commit step keeps territories pairwise disjoint. */
  lemma CommitOneDisjoint(cfg: Config, players: seq<Player>, i: nat, cells: set<Point>)
    requires i < |players| && PairwiseDisjoint(players)
    ensures PairwiseDisjoint(CommitOne(cfg, players, i, cells))
  {
    var r := CommitOne(cfg, players, i, cells);
    forall a, b | 0 <= a < |r| && 0 <= b < |r| && a != b
      ensures r[a].territory.points !! r[b].territory.points
    {
      CommitOneAt(cfg, players, i, cells, a);
      CommitOneAt(cfg, players, i, cells, b);
      assert players[a].territory.points !! players[b].territory.points;
    }
  }

  /** The outer commit loop from player `i` on. */
  function CommitFrom(cfg: Config, players: seq<Player>, resolved: seq<Grab>, i: nat): (r: seq<Player>)
    requires i <= |players|
    ensures |r| == |players|
    decreases |players| - i
  {
    if i == |players| then players
    else CommitFrom(cfg, CommitStep(cfg, players, resolved, i), resolved, i + 1)
  }

  /** The commit changes only territories and pending scores. */
  lemma {:induction false} CommitFromFrame(cfg: Config, players: seq<Player>, resolved: seq<Grab>, i: nat, m: nat)
    requires i <= |players| && m < |players|
    ensures var r := CommitFrom(cfg, players, resolved, i);
      r[m] == players[m].(territory := r[m].territory, tickScore := r[m].tickScore)
    decreases |players| - i
  {
    if i < |players| {
      var next := CommitStep(cfg, players, resolved, i);
      CommitFromFrame(cfg, next, resolved, i + 1, m);
      CommitStepAt(cfg, players, resolved, i, m);
    }
  }

  /** One pass of the outer commit loop: player `i`'s resolved grab, if it has a non-empty one. */
  function CommitStep(cfg: Config, players: seq<Player>, resolved: seq<Grab>, i: nat): (r: seq<Player>)
    requires i < |players|
    ensures |r| == |players|
  {
    var cells := Lookup(resolved, i);
    if cells != {} then CommitOne(cfg, players, i, cells) else players
  }

  /**
   What one pass does to player `m`: its cells take the step of the fold, nothing but
   territory and pending score changes, and the pending score does not fall when the enemy
   rate is at least the neutral rate.
   */
  lemma CommitStepAt(cfg: Config, players: seq<Player>, resolved: seq<Grab>, i: nat, m: nat)
    requires i < |players| && m < |players|
    ensures var r := CommitStep(cfg, players, resolved, i);
      && r[m].territory.points == CellStep(resolved, players[m].territory.points, i, m)
      && r[m] == players[m].(territory := r[m].territory, tickScore := r[m].tickScore)
      && (cfg.neutralScore <= cfg.enemyScore ==> r[m].tickScore >= players[m].tickScore)
  {
    var cells := Lookup(resolved, i);
    if cells != {} {
      CommitOneAt(cfg, players, i, cells, m);
    }
  }

  /** When taking a cell pays at least as much as a neutral one, committing never lowers a pending score. */
  lemma {:induction false} CommitFromScores(cfg: Config, players: seq<Player>, resolved: seq<Grab>, i: nat, m: nat)
    requires i <= |players| && m < |players| && cfg.neutralScore <= cfg.enemyScore
    ensures CommitFrom(cfg, players, resolved, i)[m].tickScore >= players[m].tickScore
    decreases |players| - i
  {
    if i < |players| {
      var next := CommitStep(cfg, players, resolved, i);
      CommitFromScores(cfg, next, resolved, i + 1, m);
      CommitStepAt(cfg, players, resolved, i, m);
    }
  }

  /** The whole commit keeps territories pairwise disjoint. */
  lemma {:induction false} CommitFromDisjoint(cfg: Config, players: seq<Player>, resolved: seq<Grab>, i: nat)
    requires i <= |players| && PairwiseDisjoint(players)
    ensures PairwiseDisjoint(CommitFrom(cfg, players, resolved, i))
    decreases |players| - i
  {
    if i < |players| {
      var cells := Lookup(resolved, i);
      if cells != {} {
        CommitOneDisjoint(cfg, players, i, cells);
      }
      CommitFromDisjoint(cfg, CommitStep(cfg, players, resolved, i), resolved, i + 1);
    }
  }

  /** Grabs of distinct players share no cell, as collision resolution guarantees. */
  predicate DisjointGrabs(grabs: seq<Grab>)
  {
    forall a, b | 0 <= a < |grabs| && 0 <= b < |grabs| && grabs[a].owner != grabs[b].owner ::
      grabs[a].cells !! grabs[b].cells
  }

  /** The claims on player `m` from `i` on split into player `i`'s grab and the claims after it. */
  lemma ClaimsSplitOther(grabs: seq<Grab>, i: nat, m: nat)
    requires DistinctOwners(grabs) && m != i
    ensures ClaimsOfOthers(grabs, m, i) == Lookup(grabs, i) + ClaimsOfOthers(grabs, m, i + 1)
  {
    ClaimsOfOthersMembers(grabs, m, i);
    ClaimsOfOthersMembers(grabs, m, i + 1);
    LookupMembers(grabs, i);
  }

  /** Player `i`'s own grab is not a claim on it, and no other player claims any of it. */
  lemma ClaimsSplitOwn(grabs: seq<Grab>, i: nat)
    requires DistinctOwners(grabs) && DisjointGrabs(grabs)
    ensures ClaimsOfOthers(grabs, i, i) == ClaimsOfOthers(grabs, i, i + 1)
    ensures Lookup(grabs, i) !! ClaimsOfOthers(grabs, i, 0)
    ensures Lookup(grabs, i) !! ClaimsOfOthers(grabs, i, i + 1)
  {
    ClaimsOfOthersMembers(grabs, i, i);
    ClaimsOfOthersMembers(grabs, i, i + 1);
    ClaimsOfOthersMembers(grabs, i, 0);
    LookupMembers(grabs, i);
  }

  /**
   Player `m`'s cells `s` carried through the commit loop from player `i` on: each
   non-empty grab is added when it is `m`'s own and removed otherwise.
   */
  function CellsAfter(resolved: seq<Grab>, n: nat, s: set<Point>, i: nat, m: nat): set<Point>
    requires i <= n
    decreases n - i
  {
    if i == n then s else CellsAfter(resolved, n, CellStep(resolved, s, i, m), i + 1, m)
  }

  /** Player `m`'s cells `s` after player `i`'s pass of the commit loop. */
  function CellStep(resolved: seq<Grab>, s: set<Point>, i: nat, m: nat): set<Point>
  {
    var cells := Lookup(resolved, i);
    if cells == {} then s else if m == i then s + cells else s - cells
  }

  /** The commit loop acts on each player's cells as that fold does. */
  lemma {:induction false} CommitFollowsCells(cfg: Config, players: seq<Player>, resolved: seq<Grab>, i: nat, m: nat)
    requires i <= |players| && m < |players|
    ensures CommitFrom(cfg, players, resolved, i)[m].territory.points ==
            CellsAfter(resolved, |players|, players[m].territory.points, i, m)
    decreases |players| - i, 1
  {
    if i < |players| {
      CommitFollowsStep(cfg, players, resolved, i, m);
    } else {
      CommitFromDone(cfg, players, resolved, i);
    }
  }

  /** One pass of the loop, then the rest by induction. */
  lemma {:induction false} CommitFollowsStep(cfg: Config, players: seq<Player>, resolved: seq<Grab>, i: nat, m: nat)
    requires i < |players| && m < |players|
    ensures CommitFrom(cfg, players, resolved, i)[m].territory.points ==
            CellsAfter(resolved, |players|, players[m].territory.points, i, m)
    decreases |players| - i, 0
  {
    var next := CommitStep(cfg, players, resolved, i);
    CommitFollowsCells(cfg, next, resolved, i + 1, m);
    CommitStepAt(cfg, players, resolved, i, m);
    CommitFromUnfold(cfg, players, resolved, i);
    CellsAfterUnfold(resolved, |players|, players[m].territory.points, i, m);
  }

  lemma CommitFromDone(cfg: Config, players: seq<Player>, resolved: seq<Grab>, i: nat)
    requires i == |players|
    ensures CommitFrom(cfg, players, resolved, i) == players
  {
  }

  lemma CommitFromUnfold(cfg: Config, players: seq<Player>, resolved: seq<Grab>, i: nat)
    requires i < |players|
    ensures CommitFrom(cfg, players, resolved, i) == CommitFrom(cfg, CommitStep(cfg, players, resolved, i), resolved, i + 1)
  {
  }

  lemma CellsAfterUnfold(resolved: seq<Grab>, n: nat, s: set<Point>, i: nat, m: nat)
    requires i < n
    ensures CellsAfter(resolved, n, s, i, m) == CellsAfter(resolved, n, CellStep(resolved, s, i, m), i + 1, m)
  {
  }

  /**
   With one entry per player, disjoint grabs and every owner below `n`, the fold from `i`
   on removes every claim of the players from `i` on other than `m`, and adds `m`'s own
   grab when `m` is not yet passed.
   */
  lemma {:induction false} CellsAfterExact(resolved: seq<Grab>, n: nat, s: set<Point>, i: nat, m: nat)
    requires i <= n && m < n
    requires DistinctOwners(resolved) && DisjointGrabs(resolved)
    requires forall g | g in resolved :: g.owner < n
    ensures CellsAfter(resolved, n, s, i, m) ==
            if m < i then s - ClaimsOfOthers(resolved, m, i) else (s - ClaimsOfOthers(resolved, m, i)) + Lookup(resolved, m)
    decreases n - i
  {
    if i == n {
      ClaimsOfOthersMembers(resolved, m, i);
      assert ClaimsOfOthers(resolved, m, i) == {};
    } else {
      var cells := Lookup(resolved, i);
      CellsAfterExact(resolved, n, CellStep(resolved, s, i, m), i + 1, m);
      if m == i {
        ClaimsSplitOwn(resolved, i);
        AddBeforeRemove(s, cells, ClaimsOfOthers(resolved, i, i + 1));
      } else {
        ClaimsSplitOther(resolved, i, m);
        OtherCells(s, cells, ClaimsOfOthers(resolved, m, i + 1), ClaimsOfOthers(resolved, m, i),
                   Lookup(resolved, m), m < i);
      }
    }
  }

  /** Removing a grab and then the later claims is removing all claims. */
  lemma OtherCells(p: set<Point>, c: set<Point>, later: set<Point>, all: set<Point>, own: set<Point>, before: bool)
    requires all == c + later
    ensures (if before then (p - c) - later else ((p - c) - later) + own) ==
            (if before then p - all else (p - all) + own)
  {
  }

  lemma AddBeforeRemove(p: set<Point>, c: set<Point>, later: set<Point>)
    requires c !! later
    ensures (p + c) - later + c == (p - later) + c
    ensures (p + c) - later == (p - later) + c
  {
  }

  /**
   With one entry per player, disjoint grabs and every owner on the roster, the whole
   commit leaves each player exactly its old cells, minus what the others grabbed, plus
   its own grab.
   */
  lemma CommitExact(cfg: Config, players: seq<Player>, resolved: seq<Grab>)
    requires DistinctOwners(resolved) && DisjointGrabs(resolved)
    requires forall g | g in resolved :: g.owner < |players|
    ensures forall m | 0 <= m < |players| ::
              CommitFrom(cfg, players, resolved, 0)[m].territory.points ==
                (players[m].territory.points - ClaimsOfOthers(resolved, m, 0)) + Lookup(resolved, m)
  {
    forall m | 0 <= m < |players|
      ensures CommitFrom(cfg, players, resolved, 0)[m].territory.points ==
                (players[m].territory.points - ClaimsOfOthers(resolved, m, 0)) + Lookup(resolved, m)
    {
      CommitFollowsCells(cfg, players, resolved, 0, m);
      CellsAfterExact(resolved, |players|, players[m].territory.points, 0, m);
    }
  }

  // ---------------------------------------------------------------------------
  // Removing losers and settling scores

  /** The roster indices from `i` on that are not losers, in increasing order. */
  function Kept(n: nat, losers: set<nat>, i: nat): (ks: seq<nat>)
    requires i <= n
    ensures forall k | 0 <= k < |ks| :: i <= ks[k] < n && ks[k] !in losers
    ensures forall a, b | 0 <= a < b < |ks| :: ks[a] < ks[b]
    decreases n - i
  {
    if i == n then []
    else
      var rest := Kept(n, losers, i + 1);
      if i in losers then rest
      else
        assert forall k | 0 < k < |rest| + 1 :: ([i] + rest)[k] == rest[k - 1];
        [i] + rest
  }

  /** Every roster index that is not a loser is kept. */
  lemma {:induction false} KeptComplete(n: nat, losers: set<nat>, i: nat, m: nat)
    requires i <= m < n && m !in losers
    ensures m in Kept(n, losers, i)
    decreases n - i
  {
    if i < m {
      KeptComplete(n, losers, i + 1, m);
    }
  }


  /** The roster without the losers, order kept. */
  function RemoveLosers(players: seq<Player>, losers: set<nat>): (r: seq<Player>)
    ensures var ks := Kept(|players|, losers, 0);
      |r| == |ks| && forall k | 0 <= k < |r| :: r[k] == players[ks[k]]
  {
    var ks := Kept(|players|, losers, 0);
    seq(|ks|, k requires 0 <= k < |ks| => players[ks[k]])
  }

  /**
   Every remaining player banks its pending score: nothing is pending afterwards, no point
   is lost or made, and nothing else about the player changes.
   */
  function Settle(players: seq<Player>): (r: seq<Player>)
    ensures |r| == |players|
    ensures forall k | 0 <= k < |r| ::
              && r[k].tickScore == 0
              && r[k].score + r[k].tickScore == players[k].score + players[k].tickScore
              && r[k] == players[k].(score := r[k].score, tickScore := 0)
  {
    seq(|players|, k requires 0 <= k < |players| =>
      players[k].(score := players[k].score + players[k].tickScore, tickScore := 0))
  }

  /** Banking a second time changes nothing. */
  lemma SettleTwice(players: seq<Player>)
    ensures Settle(Settle(players)) == Settle(players)
  {
  }

  // ---------------------------------------------------------------------------
  // The tick

  datatype TickResult = TickResult(players: seq<Player>, losers: set<nat>, resolved: seq<Grab>)

  /** The players eaten by a resolved grab. */
  function EatenLosers(players: seq<Player>, resolved: seq<Grab>): (r: set<nat>)
    ensures forall i :: i in r <==> (0 <= i < |players| &&
              exists k | 0 <= k < |resolved| :: resolved[k].owner != i && players[i].Head() in resolved[k].cells)
  {
    set i | 0 <= i < |players| && IsEaten(i, players[i].Head(), resolved).Some?
  }

  /**
   Every tick counter advances and every player due to move steps: a mover with a known
   heading goes one cell along one axis and its previous position becomes its old head, a
   player not due keeps its place, and nothing but the position and the counter changes.
   */
  function Advance(players: seq<Player>): (r: seq<Player>)
    ensures |r| == |players|
    ensures forall i | 0 <= i < |players| ::
              && r[i].tick == players[i].tick + 1
              && r[i] == players[i].(tick := r[i].tick, x := r[i].x, y := r[i].y, prevX := r[i].prevX, prevY := r[i].prevY)
              && (Moves(r[i]) ==> r[i].Prev() == players[i].Head())
              && (Moves(r[i]) && (exists d :: players[i].direction == KeyOf(players[i].keys, d)) ==>
                    OrthogonalStep(players[i].Head(), r[i].Head()))
              && (!Moves(r[i]) ==> r[i].Head() == players[i].Head() && r[i].Prev() == players[i].Prev())
  {
    seq(|players|, i requires 0 <= i < |players| =>
      var t := players[i].(tick := players[i].tick + 1); if Moves(t) then Move(t) else t)
  }

  /** Every player extends its trail and proposes its capture. */
  function Propose(cfg: Config, moved: seq<Player>, f: PathFinder): (r: seq<Proposal>)
    ensures |r| == |moved|
    ensures forall i | 0 <= i < |moved| :: r[i] == GrabOne(cfg, moved[i], f)
    ensures forall i | 0 <= i < |moved| ::
              && (r[i].grab.Some? <==> Moves(moved[i]))
              && r[i].player.territory.points == moved[i].territory.points
              && r[i].player.Head() == moved[i].Head()
  {
    seq(|moved|, i requires 0 <= i < |moved| => GrabOne(cfg, moved[i], f))
  }

  /** The intermediate rosters of one tick, in the order the game builds them. */
  datatype Stages = Stages(
    moved: seq<Player>,               // tick counters advanced, movers moved
    steps: seq<Proposal>,             // trails extended, captures proposed
    proposed: seq<Player>,            // the roster after the capture proposals
    grabs: seq<Grab>,                 // the raw grab table
    caught: (set<nat>, seq<Player>),  // losers by the lose conditions, with kill bonuses
    resolved: seq<Grab>,              // the grab table after collision resolution
    committed: seq<Player>,           // grabs committed and opponents debited
    losers: set<nat>)                 // all losers of the tick

  function RunStages(cfg: Config, players: seq<Player>, f: PathFinder): (s: Stages)
    ensures |s.moved| == |players| && |s.steps| == |players| && |s.proposed| == |players|
    ensures |s.caught.1| == |players| && |s.committed| == |players|
    ensures s.losers == TickLosers(cfg, s.proposed, s.resolved)
  {
    var moved := Advance(players);
    var steps := Propose(cfg, moved, f);
    var proposed := seq(|steps|, i requires 0 <= i < |steps| => steps[i].player);
    var grabs := Collect(steps, 0);
    var caught := CatchLosers(cfg, proposed, 0);
    var resolved := CollisionResolution(grabs);
    var committed := CommitFrom(cfg, caught.1, resolved, 0);
    Stages(moved, steps, proposed, grabs, caught, resolved, committed, TickLosers(cfg, proposed, resolved))
  }

  /**
   The losers of a tick: the players meeting a lose condition once every capture is
   proposed, and those whose head lies in another player's resolved grab.
   */
  function TickLosers(cfg: Config, proposed: seq<Player>, resolved: seq<Grab>): (r: set<nat>)
    ensures forall i :: i in r <==>
              (0 <= i < |proposed| &&
               (LoseCondition(cfg, i, proposed) ||
                exists k | 0 <= k < |resolved| :: resolved[k].owner != i && proposed[i].Head() in resolved[k].cells))
  {
    var caught := CatchLosers(cfg, proposed, 0);
    assert forall i | 0 <= i < |proposed| :: caught.1[i].Head() == proposed[i].Head();
    caught.0 + EatenLosers(caught.1, resolved)
  }


  /**
   One tick of the game: the survivors, in roster order, with their scores settled; the
   roster indices of this tick's losers; and the resolved grab table.
   */
  function Tick(cfg: Config, players: seq<Player>, f: PathFinder): (r: TickResult)
    ensures forall i | i in r.losers :: i < |players|
    ensures var ks := Kept(|players|, r.losers, 0);
      && |r.players| == |ks|
      && forall k | 0 <= k < |r.players| :: r.players[k].tickScore == 0 && r.players[k].id == players[ks[k]].id
  {
    var s := RunStages(cfg, players, f);
    forall m | 0 <= m < |players| ensures s.committed[m].id == players[m].id {
      CommittedAt(cfg, players, f, m);
    }
    TickResult(Settle(RemoveLosers(s.committed, s.losers)), s.losers, s.resolved)
  }

  /** What moving and proposing a capture leave of player `m`. */
  lemma ProposedAt(cfg: Config, players: seq<Player>, f: PathFinder, m: nat)
    requires m < |players|
    ensures var p := Propose(cfg, Advance(players), f)[m].player;
      && p.id == players[m].id && p.score == players[m].score
      && p.territory.points == players[m].territory.points
      && (0 <= cfg.neutralScore ==> p.tickScore >= players[m].tickScore)
  {
    var moved := Advance(players)[m];
    var st := GrabOne(cfg, moved, f);
    if 0 <= cfg.neutralScore && st.grab.Some? {
      MulNonneg(cfg.neutralScore, |st.grab.value|);
    }
  }


  /** What catching losers and committing grabs leave of player `m`, besides territory and pending score. */
  lemma CaughtAt(cfg: Config, players: seq<Player>, f: PathFinder, m: nat)
    requires m < |players|
    ensures var s := RunStages(cfg, players, f);
      && s.caught.1[m] == s.proposed[m].(tickScore := s.caught.1[m].tickScore)
      && s.committed[m] == s.caught.1[m].(territory := s.committed[m].territory, tickScore := s.committed[m].tickScore)
  {
    var s := RunStages(cfg, players, f);
    CommitFromFrame(cfg, s.caught.1, s.resolved, 0, m);
  }

  /** A player's identity and banked score survive the stages of a tick. */
  lemma CommittedAt(cfg: Config, players: seq<Player>, f: PathFinder, m: nat)
    requires m < |players|
    ensures var s := RunStages(cfg, players, f);
      s.committed[m].id == players[m].id && s.committed[m].score == players[m].score
  {
    ProposedAt(cfg, players, f, m);
    CaughtAt(cfg, players, f, m);
  }

  /** Moving and proposing captures leave every territory as it was. */
  lemma ProposalsKeepTerritories(cfg: Config, players: seq<Player>, f: PathFinder)
    ensures var s := RunStages(cfg, players, f);
      forall m | 0 <= m < |players| :: s.caught.1[m].territory.points == players[m].territory.points
  {
    forall m | 0 <= m < |players|
      ensures RunStages(cfg, players, f).caught.1[m].territory.points == players[m].territory.points
    {
      ProposedAt(cfg, players, f, m);
      CaughtAt(cfg, players, f, m);
    }
  }


  /** Dropping losers keeps territories pairwise disjoint. */
  lemma RemoveLosersDisjoint(players: seq<Player>, losers: set<nat>)
    requires PairwiseDisjoint(players)
    ensures PairwiseDisjoint(RemoveLosers(players, losers))
  {
    var ks := Kept(|players|, losers, 0);
    var kept := RemoveLosers(players, losers);
    forall a, b | 0 <= a < |kept| && 0 <= b < |kept| && a != b
      ensures kept[a].territory.points !! kept[b].territory.points
    {
      assert ks[a] != ks[b] by {
        if a < b { assert ks[a] < ks[b]; } else { assert ks[b] < ks[a]; }
      }
    }
  }

  /** Territories stay pairwise disjoint from one tick to the next. */
  lemma TickKeepsTerritoriesDisjoint(cfg: Config, players: seq<Player>, f: PathFinder)
    requires PairwiseDisjoint(players)
    ensures PairwiseDisjoint(Tick(cfg, players, f).players)
  {
    var s := RunStages(cfg, players, f);
    ProposalsKeepTerritories(cfg, players, f);
    SameTerritoriesDisjoint(players, s.caught.1);
    CommitFromDisjoint(cfg, s.caught.1, s.resolved, 0);
    RemoveLosersDisjoint(s.committed, s.losers);
    var kept := RemoveLosers(s.committed, s.losers);
    SameTerritoriesDisjoint(kept, Settle(kept));
  }

  /** Rosters with the same territories, player by player, are disjoint together. */
  lemma SameTerritoriesDisjoint(a: seq<Player>, b: seq<Player>)
    requires |a| == |b| && forall m | 0 <= m < |a| :: a[m].territory.points == b[m].territory.points
    requires PairwiseDisjoint(a)
    ensures PairwiseDisjoint(b)
  {
    forall x, y | 0 <= x < |b| && 0 <= y < |b| && x != y
      ensures b[x].territory.points !! b[y].territory.points
    {
      assert a[x].territory.points !! a[y].territory.points;
    }
  }


  predicate OwnersIncreasing(grabs: seq<Grab>)
  {
    forall a, b | 0 <= a < b < |grabs| :: grabs[a].owner < grabs[b].owner
  }

  lemma {:induction false} SurvivorsKeepOrder(grabs: seq<Grab>, all: seq<Grab>)
    requires OwnersIncreasing(grabs)
    ensures OwnersIncreasing(Survivors(grabs, all))
  {
    if |grabs| > 0 {
      SurvivorsKeepOrder(grabs[1..], all);
      var rest := Survivors(grabs[1..], all);
      forall k | 0 <= k < |rest| ensures grabs[0].owner < rest[k].owner {
        assert rest[k] in grabs[1..];
      }
    }
  }

  /** Resolving a grab table with increasing owners below `n` keeps it well formed. */
  lemma ResolutionWellFormed(grabs: seq<Grab>, n: nat)
    requires OwnersIncreasing(grabs) && forall k | 0 <= k < |grabs| :: grabs[k].owner < n
    ensures var r := CollisionResolution(grabs);
      DistinctOwners(r) && DisjointGrabs(r) && forall g | g in r :: g.owner < n
  {
    var pg := Survivors(grabs, grabs);
    var r := CollisionResolution(grabs);
    SurvivorsKeepOrder(grabs, grabs);
    assert OwnersIncreasing(r);
    forall g | g in r ensures g.owner < n {
      var k :| 0 <= k < |r| && r[k] == g;
      assert pg[k] in pg;
    }
  }

  /** The resolved table of a tick has one entry per player, disjoint grabs, and only roster owners. */
  lemma ResolvedWellFormed(cfg: Config, players: seq<Player>, f: PathFinder)
    ensures var s := RunStages(cfg, players, f);
      && DistinctOwners(s.resolved) && DisjointGrabs(s.resolved)
      && forall g | g in s.resolved :: g.owner < |players|
  {
    var s := RunStages(cfg, players, f);
    assert s.resolved == CollisionResolution(s.grabs);
    assert OwnersIncreasing(s.grabs);
    ResolutionWellFormed(s.grabs, |players|);
  }

  /**
   After a tick every survivor owns exactly its old cells, minus the resolved grabs of
   every other player of the tick (losers included), plus its own resolved grab.
   */
  lemma TickTerritories(cfg: Config, players: seq<Player>, f: PathFinder)
    ensures var r := Tick(cfg, players, f);
      var ks := Kept(|players|, r.losers, 0);
      forall k | 0 <= k < |r.players| ::
        r.players[k].territory.points ==
          (players[ks[k]].territory.points - ClaimsOfOthers(r.resolved, ks[k], 0)) + Lookup(r.resolved, ks[k])
  {
    var s := RunStages(cfg, players, f);
    ResolvedWellFormed(cfg, players, f);
    ProposalsKeepTerritories(cfg, players, f);
    CommitExact(cfg, s.caught.1, s.resolved);
    SettledTerritories(players, s.committed, s.losers, s.resolved);
  }

  /** Removing losers and banking scores leave each survivor's committed territory alone. */
  lemma SettledTerritories(players: seq<Player>, committed: seq<Player>, losers: set<nat>, resolved: seq<Grab>)
    requires |committed| == |players|
    requires forall m | 0 <= m < |players| ::
               committed[m].territory.points ==
                 (players[m].territory.points - ClaimsOfOthers(resolved, m, 0)) + Lookup(resolved, m)
    ensures var ks := Kept(|players|, losers, 0);
      var r := Settle(RemoveLosers(committed, losers));
      forall k | 0 <= k < |r| ::
        r[k].territory.points ==
          (players[ks[k]].territory.points - ClaimsOfOthers(resolved, ks[k], 0)) + Lookup(resolved, ks[k])
  {
  }


  /**
   Moving, proposing and catching losers leave a player's score alone and keep its pending
   score non-negative.
   */
  lemma CaughtScoreAt(cfg: Config, players: seq<Player>, f: PathFinder, m: nat)
    requires cfg.MonotoneScores() && m < |players| && players[m].tickScore >= 0
    ensures var s := RunStages(cfg, players, f);
      s.caught.1[m].score == players[m].score && s.caught.1[m].tickScore >= 0
  {
    var s := RunStages(cfg, players, f);
    ProposedAt(cfg, players, f, m);
    CaughtAt(cfg, players, f, m);
    CatchLosersScore(cfg, s.proposed, 0, m);
    KillBonusNonneg(cfg, s.proposed, m, 0);
  }


  /**
   When capturing never costs points and a player's pending score starts the tick
   non-negative, no surviving player's score goes down.
   */
  lemma TickScoresMonotone(cfg: Config, players: seq<Player>, f: PathFinder)
    requires cfg.MonotoneScores()
    requires forall m | 0 <= m < |players| :: players[m].tickScore >= 0
    ensures var r := Tick(cfg, players, f);
      var ks := Kept(|players|, r.losers, 0);
      forall k | 0 <= k < |r.players| :: r.players[k].score >= players[ks[k]].score
  {
    var s := RunStages(cfg, players, f);
    forall m | 0 <= m < |players|
      ensures s.committed[m].score == players[m].score && s.committed[m].tickScore >= 0
    {
      CaughtScoreAt(cfg, players, f, m);
      CommitFromScores(cfg, s.caught.1, s.resolved, 0, m);
      CommittedAt(cfg, players, f, m);
    }
    SettledScores(players, s.committed, s.losers);
  }

  /**
   A survivor's score after the tick is its score before it plus the pending score it
   holds once every kill, capture and debit of the tick is counted.
   */
  lemma TickBanksScores(cfg: Config, players: seq<Player>, f: PathFinder)
    ensures var s := RunStages(cfg, players, f);
      var r := Tick(cfg, players, f);
      var ks := Kept(|players|, r.losers, 0);
      && |r.players| == |ks|
      && forall k | 0 <= k < |r.players| ::
           r.players[k].score == players[ks[k]].score + s.committed[ks[k]].tickScore
  {
    var s := RunStages(cfg, players, f);
    forall m | 0 <= m < |players| ensures s.committed[m].score == players[m].score {
      CommittedAt(cfg, players, f, m);
    }
    BankedScores(players, s.committed, s.losers);
  }

  /** Settling the kept players of `committed` adds each one's pending score to its score. */
  lemma BankedScores(players: seq<Player>, committed: seq<Player>, losers: set<nat>)
    requires |committed| == |players|
    requires forall m | 0 <= m < |players| :: committed[m].score == players[m].score
    ensures var ks := Kept(|players|, losers, 0);
      var r := Settle(RemoveLosers(committed, losers));
      && |r| == |ks|
      && forall k | 0 <= k < |r| :: r[k].score == players[ks[k]].score + committed[ks[k]].tickScore
  {
  }

  /** Banking non-negative pending scores never lowers a survivor's score. */
  lemma SettledScores(players: seq<Player>, committed: seq<Player>, losers: set<nat>)
    requires |committed| == |players|
    requires forall m | 0 <= m < |players| :: committed[m].score == players[m].score && committed[m].tickScore >= 0
    ensures var ks := Kept(|players|, losers, 0);
      var r := Settle(RemoveLosers(committed, losers));
      forall k | 0 <= k < |r| :: r[k].score >= players[ks[k]].score
  {
  }


  lemma MulAtLeast(a: int, m: int)
    requires a >= 1 && m >= 1
    ensures a * m >= m
  {
  }

  /** The remainder is the one `r` with `x == q * m + r` and `0 <= r < m`. */
  lemma ModUnique(x: int, m: int, q: int, r: int)
    requires m >= 1 && 0 <= r < m && x == q * m + r
    ensures x % m == r
  {
    var q2 := x / m;
    assert (q2 - q) * m == q2 * m - q * m;
    if q2 > q {
      MulAtLeast(q2 - q, m);
    } else if q2 < q {
      MulAtLeast(q - q2, m);
    }
  }

  lemma ModShift(t: int, m: int)
    requires m >= 1
    ensures (t + m) % m == t % m
  {
    var q, r := t / m, t % m;
    assert (q + 1) * m == q * m + m;
    ModUnique(t + m, m, q + 1, r);
  }

  lemma MulNonneg(a: int, b: int)
    requires a >= 0 && b >= 0
    ensures a * b >= 0
  {
  }

  lemma {:induction false} KillBonusNonneg(cfg: Config, players: seq<Player>, m: nat, i: nat)
    requires m < |players| && i <= |players| && cfg.lineKillScore >= 0
    ensures KillBonus(cfg, players, m, i) >= 0
    decreases |players| - i
  {
    if i < |players| {
      KillBonusNonneg(cfg, players, m, i + 1);
    }
  }

}
