/**
 Timed pick-ups (game_objects/bonuses.py): a Nitro halves the move cadence to one tick per
 cell, an ExtraLife sets a flag. Their effects act on the player's perks: the move cadence,
 the extra-life flag and the list of held bonuses.
 */
module Bonuses {

  import opened Wrappers
  import opened Geometry
  import opened Settings
  import opened Territories

  /** The base class and its two subclasses. */
  datatype Kind = Plain | Nitro | ExtraLife

  datatype Bonus = Bonus(kind: Kind, x: int, y: int, tick: int, activeTicks: int, activated: bool)
  {
    /** The class attribute `name`. */
    function Name(): (r: Option<string>)
      ensures r == Some("Nitro") <==> kind == Nitro
    {
      match kind
      case Plain => None
      case Nitro => Some("Nitro")
      case ExtraLife => Some("extra_life")
    }

    function RemainingTicks(): int
    {
      activeTicks - tick
    }

    function Cell(): Point
    {
      Point(x, y)
    }
  }

  /** The part of a player that bonuses read and write. */
  datatype Perks = Perks(moveableTick: Cadence, extraLife: bool, bonuses: seq<Bonus>)

  /** Every bonus lasts ten ticks. */
  function GenerateActiveTicks(): int
  {
    10
  }

  /** A bonus placed at `cell`, not yet counting down. */
  function NewBonus(kind: Kind, cell: Point): (b: Bonus)
    ensures b.Cell() == cell && b.kind == kind && !b.activated
    ensures b.tick == 0 && b.activeTicks == 10 && b.RemainingTicks() == b.activeTicks
  {
    Bonus(kind, cell.x, cell.y, 0, GenerateActiveTicks(), false)
  }

  /** A bonus is taken when the player's head lands on it or when its cell is captured. */
  function IsEaten(b: Bonus, head: Point, captured: set<Point>): (r: bool)
    ensures r <==> b.Cell() == head || b.Cell() in captured
  {
    b.Cell() == head || b.Cell() in captured
  }

  function NitroCount(bs: seq<Bonus>): (n: nat)
    ensures n <= |bs|
    ensures n == 0 <==> forall k | 0 <= k < |bs| :: bs[k].kind != Nitro
  {
    if |bs| == 0 then 0 else (if bs[0].kind == Nitro then 1 else 0) + NitroCount(bs[1..])
  }

  /** The index of the first held Nitro, if any. */
  function FirstNitro(bs: seq<Bonus>): (r: Option<nat>)
    ensures r.None? <==> forall k | 0 <= k < |bs| :: bs[k].kind != Nitro
    ensures r.Some? ==> r.value < |bs| && bs[r.value].kind == Nitro
                        && forall k | 0 <= k < r.value :: bs[k].kind != Nitro
  {
    if |bs| == 0 then None
    else if bs[0].kind == Nitro then Some(0)
    else match FirstNitro(bs[1..])
      case None => None
      case Some(k) => Some(k + 1)
  }

  /**
   Picking up a bonus. A Nitro extends the first Nitro already held by its own duration, or
   is appended when none is held; an ExtraLife is appended and sets the flag; the base
   class does nothing.
   */
  function Apply(b: Bonus, p: Perks): (r: Perks)
    ensures r.moveableTick == p.moveableTick
    ensures b.kind == Nitro ==> r.extraLife == p.extraLife
    ensures b.kind == Nitro && FirstNitro(p.bonuses).Some? ==>
              var k := FirstNitro(p.bonuses).value;
              && |r.bonuses| == |p.bonuses|
              && r.bonuses[k] == p.bonuses[k].(activeTicks := p.bonuses[k].activeTicks + b.activeTicks)
              && forall m | 0 <= m < |p.bonuses| && m != k :: r.bonuses[m] == p.bonuses[m]
    ensures b.kind == Nitro && FirstNitro(p.bonuses).None? ==> r.bonuses == p.bonuses + [b]
    ensures b.kind == ExtraLife ==> r.extraLife && r.bonuses == p.bonuses + [b]
    ensures b.kind == Plain ==> r == p
  {
    match b.kind
    case Plain => p
    case Nitro =>
      (match FirstNitro(p.bonuses)
       case Some(k) =>
         var held := p.bonuses[k];
         p.(bonuses := p.bonuses[k := held.(activeTicks := held.activeTicks + b.activeTicks)])
       case None => p.(bonuses := p.bonuses + [b]))
    case ExtraLife => p.(bonuses := p.bonuses + [b], extraLife := true)
  }

  /** Ending a bonus: a Nitro restores the normal cadence, an ExtraLife clears the flag. */
  function Cancel(cfg: Config, b: Bonus, p: Perks): (r: Perks)
    ensures r.bonuses == p.bonuses
    ensures b.kind == Nitro ==> r == p.(moveableTick := cfg.moveableTicks)
    ensures b.kind == ExtraLife ==> r == p.(extraLife := false)
    ensures b.kind == Plain ==> r == p
  {
    match b.kind
    case Plain => p
    case Nitro => p.(moveableTick := cfg.moveableTicks)
    case ExtraLife => p.(extraLife := false)
  }

  /**
   When a trail closes back on the territory, a bonus lying on an unowned trail cell is
   taken by the capture, and one lying inside the old territory is taken only by the head.
   */
  lemma CaptureEatsTrailBonus(b: Bonus, head: Point, t: Territory, line: seq<Point>, f: PathFinder)
    requires |line| >= 2 && line[|line| - 1] in t.points
    ensures b.Cell() in line && b.Cell() !in t.points ==> IsEaten(b, head, Capture(t, line, f).0)
    ensures b.Cell() in t.points ==> (IsEaten(b, head, Capture(t, line, f).0) <==> b.Cell() == head)
  {
  }

  /**
   Ending a bonus right after picking it up: an ExtraLife leaves the flag cleared and stays
   in the list; a Nitro leaves the normal cadence; ending twice is ending once.
   */
  lemma CancelAfterApply(cfg: Config, b: Bonus, p: Perks)
    ensures b.kind == ExtraLife ==>
              var r := Cancel(cfg, b, Apply(b, p));
              !r.extraLife && r.bonuses == p.bonuses + [b] && r.moveableTick == p.moveableTick
    ensures b.kind == Nitro ==>
              var r := Cancel(cfg, b, Apply(b, p));
              r.moveableTick == cfg.moveableTicks && r.extraLife == p.extraLife
    ensures Cancel(cfg, b, Cancel(cfg, b, p)) == Cancel(cfg, b, p)
  {
  }

  lemma {:induction false} NitroCountUpdate(bs: seq<Bonus>, k: nat, b: Bonus)
    requires k < |bs| && b.kind == bs[k].kind
    ensures NitroCount(bs[k := b]) == NitroCount(bs)
  {
    if k > 0 {
      NitroCountUpdate(bs[1..], k - 1, b);
      assert bs[k := b][1..] == bs[1..][k - 1 := b];
    }
  }

  lemma {:induction false} NitroCountAppend(bs: seq<Bonus>, b: Bonus)
    ensures NitroCount(bs + [b]) == NitroCount(bs) + (if b.kind == Nitro then 1 else 0)
  {
    if |bs| > 0 {
      NitroCountAppend(bs[1..], b);
      assert (bs + [b])[1..] == bs[1..] + [b];
    }
  }

  /** Picking up bonuses never leaves a player holding two Nitros. */
  lemma ApplyKeepsOneNitro(b: Bonus, p: Perks)
    requires NitroCount(p.bonuses) <= 1
    ensures NitroCount(Apply(b, p).bonuses) <= 1
    ensures b.kind == Nitro ==> NitroCount(Apply(b, p).bonuses) == 1
  {
    var r := Apply(b, p);
    match b.kind
    case Plain =>
    case Nitro =>
      match FirstNitro(p.bonuses) {
        case Some(k) =>
          var held := p.bonuses[k];
          var bumped := held.(activeTicks := held.activeTicks + b.activeTicks);
          assert r.bonuses == p.bonuses[k := bumped];
          NitroCountUpdate(p.bonuses, k, bumped);
        case None =>
          assert r.bonuses == p.bonuses + [b];
          NitroCountAppend(p.bonuses, b);
      }
    case ExtraLife =>
      assert r.bonuses == p.bonuses + [b];
      NitroCountAppend(p.bonuses, b);
  }

}
