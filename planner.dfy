/**
 * DeliveryPlanner: orders the deliveries with the optimizer, routes each leg
 * (depot to the first stop, stop to stop, last stop back to the depot) with
 * the point-to-point router, and turns the routed segments into proceed,
 * turn and deliver commands.
 *
 * Command assembly is specified by the functions RunLeg / RunPlan, which
 * follow the source's nested loop segment by segment; the method
 * AssembleCommands is that loop, proved equal to them.  The geometry
 * (distanceEarthMiles, angleOfLine, angleBetween2Lines) is a parameter.
 */
module Planner {
  import opened Geo
  import opened StreetMaps
  import Router
  import Optimizer

  /** A navigation command. */
  datatype DeliveryCommand =
    | Proceed(direction: string, street: string, distance: real)
    | Turn(direction: string, street: string)
    | Deliver(item: string)

  /** The street a command names; a deliver command names none. */
  function StreetName(c: DeliveryCommand): string
  {
    match c
    case Proceed(_, s, _) => s
    case Turn(_, s) => s
    case Deliver(_) => ""
  }

  /** increaseDistance: a proceed command covers dis more miles. */
  function Extended(c: DeliveryCommand, dis: real): DeliveryCommand
  {
    if c.Proceed? then c.(distance := c.distance + dis) else c
  }

  /** The three geometric primitives the planner consults. */
  datatype Geometry = Geometry(
    dist: (GeoCoord, GeoCoord) -> real,
    angleOfLine: StreetSegment -> real,
    angleBetween: (StreetSegment, StreetSegment) -> real)

  /** The eight compass words, counter-clockwise from east, one per 45-degree band. */
  const Compass: seq<string> := ["east", "northeast", "north", "northwest", "west", "southwest", "south", "southeast"]

  /**
   * getProceedAngle: the compass word of a bearing.  The if-chain tests only
   * upper bounds after its first test, so a negative bearing reads "northeast".
   */
  function GetProceedAngle(dir: real): (s: string)
    ensures s in Compass
    ensures dir < 0.0 ==> s == "northeast"
    ensures dir >= 337.5 ==> s == "east"
  {
    if dir >= 0.0 && dir < 22.5 then "east"
    else if dir < 67.5 then "northeast"
    else if dir < 112.5 then "north"
    else if dir < 157.5 then "northwest"
    else if dir < 202.5 then "west"
    else if dir < 247.5 then "southwest"
    else if dir < 292.5 then "south"
    else if dir < 337.5 then "southeast"
    else if dir >= 337.5 then "east"
    else ""
  }

  /** The 45-degree band, centred on a compass direction, that a bearing in [0, 360) falls in. */
  function Sector(dir: real): (k: int)
    ensures 0 <= k < 8
  {
    ((dir + 22.5) / 45.0).Floor % 8
  }

  /** On bearings in [0, 360), getProceedAngle names the band centred nearest the bearing. */
  lemma ProceedAngleBySector(dir: real)
    requires 0.0 <= dir < 360.0
    ensures GetProceedAngle(dir) == Compass[Sector(dir)]
  {
    var x := (dir + 22.5) / 45.0;
    if dir < 22.5 { FloorIs(x, 0); }
    else if dir < 67.5 { FloorIs(x, 1); }
    else if dir < 112.5 { FloorIs(x, 2); }
    else if dir < 157.5 { FloorIs(x, 3); }
    else if dir < 202.5 { FloorIs(x, 4); }
    else if dir < 247.5 { FloorIs(x, 5); }
    else if dir < 292.5 { FloorIs(x, 6); }
    else if dir < 337.5 { FloorIs(x, 7); }
    else { FloorIs(x, 8); }
  }

  /** The floor of a real between k and k + 1. */
  lemma FloorIs(x: real, k: int)
    requires k as real <= x < k as real + 1.0
    ensures x.Floor == k
  {
  }

  /**
   * The turn made between two consecutive segments: none when the angle
   * between them is within a degree of straight on or the street does not
   * change; otherwise left below 180 degrees, right from 180 on.
   */
  function TurnCommand(angle: real, current: StreetSegment, next: StreetSegment): (t: seq<DeliveryCommand>)
    ensures |t| <= 1
    ensures |t| == 1 <==> 1.0 <= angle <= 359.0 && current.name != next.name
    ensures |t| == 1 ==> t[0] == Turn(if angle < 180.0 then "left" else "right", next.name)
  {
    if angle < 1.0 || angle > 359.0 then []
    else if current.name != next.name then [Turn(if angle < 180.0 then "left" else "right", next.name)]
    else []
  }

  /** The commands so far and the flag justTurnedOrDelivered. */
  datatype Assembly = Assembly(commands: seq<DeliveryCommand>, justTurnedOrDelivered: bool)

  /**
   * The proceed part for one segment: extend the last command when it is on
   * the same street and nothing was turned or delivered since; otherwise
   * append a new proceed command in the segment's compass direction.
   */
  function ProceedStep(geo: Geometry, st: Assembly, seg: StreetSegment): seq<DeliveryCommand>
  {
    var cmds := st.commands;
    var dis := geo.dist(seg.start, seg.end);
    if !st.justTurnedOrDelivered && |cmds| > 0 && StreetName(cmds[|cmds| - 1]) == seg.name
    then cmds[..|cmds| - 1] + [Extended(cmds[|cmds| - 1], dis)]
    else cmds + [Proceed(GetProceedAngle(geo.angleOfLine(seg)), seg.name, dis)]
  }

  /** The turn part for segment j of a leg, after its proceed part produced cmds. */
  function AfterSegment(geo: Geometry, cmds: seq<DeliveryCommand>, leg: seq<StreetSegment>, j: nat): Assembly
    requires j < |leg|
  {
    if j + 1 == |leg| then Assembly(cmds, false)
    else
      var t := TurnCommand(geo.angleBetween(leg[j], leg[j + 1]), leg[j], leg[j + 1]);
      Assembly(cmds + t, |t| > 0)
  }

  /**
   * The inner loop from segment j of a leg on: the final state, and whether
   * a segment ending at the depot stopped it.
   */
  function RunLeg(geo: Geometry, depot: GeoCoord, st: Assembly, leg: seq<StreetSegment>, j: nat): (Assembly, bool)
    decreases |leg| - j
  {
    if j >= |leg| then (st, false)
    else
      var cmds := ProceedStep(geo, st, leg[j]);
      if leg[j].end == depot then (Assembly(cmds, false), true)
      else RunLeg(geo, depot, AfterSegment(geo, cmds, leg, j), leg, j + 1)
  }

  /** A routed leg: the request it ends with and its segments. */
  type Leg = (DeliveryRequest, seq<StreetSegment>)

  /**
   * The outer loop from leg i on: each leg's segments, then a deliver
   * command for its item, unless the depot was reached (success); NO_ROUTE
   * once every leg is done.
   */
  function RunPlan(geo: Geometry, depot: GeoCoord, st: Assembly, plan: seq<Leg>, i: nat): (seq<DeliveryCommand>, DeliveryResult)
    decreases |plan| - i
  {
    if i >= |plan| then (st.commands, NoRoute)
    else
      var (st', returned) := RunLeg(geo, depot, st, plan[i].1, 0);
      if returned then (st'.commands, DeliverySuccess)
      else RunPlan(geo, depot, Assembly(st'.commands + [Deliver(plan[i].0.item)], true), plan, i + 1)
  }

  /** The whole assembly, appended to the caller's commands. */
  function AssemblePlan(geo: Geometry, depot: GeoCoord, commands0: seq<DeliveryCommand>, plan: seq<Leg>): (seq<DeliveryCommand>, DeliveryResult)
  {
    RunPlan(geo, depot, Assembly(commands0, true), plan, 0)
  }

  /** The proceed command of one segment: extend the last command, or push a new one. */
  method AddProceed(geo: Geometry, commandsIn: seq<DeliveryCommand>, justTurnedOrDelivered: bool, seg: StreetSegment)
    returns (commands: seq<DeliveryCommand>)
    ensures commands == ProceedStep(geo, Assembly(commandsIn, justTurnedOrDelivered), seg)
  {
    commands := commandsIn;
    var dis := geo.dist(seg.start, seg.end);
    if !justTurnedOrDelivered && |commands| > 0 && StreetName(commands[|commands| - 1]) == seg.name {
      var proceed := commands[|commands| - 1];
      commands := commands[..|commands| - 1];
      proceed := Extended(proceed, dis);
      commands := commands + [proceed];
    } else {
      commands := commands + [Proceed(GetProceedAngle(geo.angleOfLine(seg)), seg.name, dis)];
    }
  }

  /** The assembly loops of generateDeliveryPlan. */
  method AssembleCommands(geo: Geometry, depot: GeoCoord, plan: seq<Leg>, commandsIn: seq<DeliveryCommand>)
    returns (commands: seq<DeliveryCommand>, result: DeliveryResult)
    ensures (commands, result) == AssemblePlan(geo, depot, commandsIn, plan)
  {
    commands := commandsIn;
    var justTurnedOrDelivered := true;
    var returned := false;
    for i := 0 to |plan|
      invariant RunPlan(geo, depot, Assembly(commands, justTurnedOrDelivered), plan, i) == AssemblePlan(geo, depot, commandsIn, plan)
    {
      var leg := plan[i].1;
      ghost var legEnd := RunLeg(geo, depot, Assembly(commands, justTurnedOrDelivered), leg, 0);
      var j := 0;
      while j < |leg|
        invariant 0 <= j <= |leg|
        invariant RunLeg(geo, depot, Assembly(commands, justTurnedOrDelivered), leg, j) == legEnd
      {
        var seg := leg[j];
        commands := AddProceed(geo, commands, justTurnedOrDelivered, seg);
        justTurnedOrDelivered := false;
        if seg.end == depot {
          returned := true;
          break;
        }
        ghost var cmds1 := commands;
        if j + 1 == |leg| {
          j := j + 1;
          continue;
        }
        var next := leg[j + 1];
        var angle := geo.angleBetween(seg, next);
        if angle < 1.0 || angle > 359.0 {
          assert AfterSegment(geo, cmds1, leg, j) == Assembly(commands, false);
          j := j + 1;
          continue;
        } else if seg.name != next.name {
          var dir := if angle < 180.0 then "left" else "right";
          commands := commands + [Turn(dir, next.name)];
          justTurnedOrDelivered := true;
        }
        assert AfterSegment(geo, cmds1, leg, j) == Assembly(commands, justTurnedOrDelivered);
        j := j + 1;
      }
      if returned {
        assert legEnd == (Assembly(commands, false), true);
        return commands, DeliverySuccess;
      }
      assert legEnd == (Assembly(commands, justTurnedOrDelivered), false);
      commands := commands + [Deliver(plan[i].0.item)];
      justTurnedOrDelivered := true;
    }
    return commands, NoRoute;
  }

  // ---------------------------------------------------------------------
  // What assembly produces
  // ---------------------------------------------------------------------

  /** The miles covered by the proceed commands. */
  function TotalProceed(cmds: seq<DeliveryCommand>): real
    decreases |cmds|
  {
    if |cmds| == 0 then 0.0
    else TotalProceed(cmds[..|cmds| - 1]) + (if cmds[|cmds| - 1].Proceed? then cmds[|cmds| - 1].distance else 0.0)
  }

  /** The items of the deliver commands, in order. */
  function Delivered(cmds: seq<DeliveryCommand>): seq<string>
    decreases |cmds|
  {
    if |cmds| == 0 then []
    else Delivered(cmds[..|cmds| - 1]) + (if cmds[|cmds| - 1].Deliver? then [cmds[|cmds| - 1].item] else [])
  }

  /** Some segment of the leg from index j on ends at the depot. */
  ghost predicate ReachesDepot(leg: seq<StreetSegment>, depot: GeoCoord, j: nat)
  {
    exists k :: j <= k < |leg| && leg[k].end == depot
  }

  /** Some leg from index i on reaches the depot. */
  ghost predicate PlanReachesDepot(plan: seq<Leg>, depot: GeoCoord, i: nat)
  {
    exists k :: i <= k < |plan| && ReachesDepot(plan[k].1, depot, 0)
  }

  /** The segments of a leg from j up to and including the first that ends at the depot. */
  function UpToDepot(leg: seq<StreetSegment>, depot: GeoCoord, j: nat): seq<StreetSegment>
    decreases |leg| - j
  {
    if j >= |leg| then []
    else if leg[j].end == depot then [leg[j]]
    else [leg[j]] + UpToDepot(leg, depot, j + 1)
  }

  /** Every segment that assembly looks at, from leg i on, in order. */
  ghost function Processed(plan: seq<Leg>, depot: GeoCoord, i: nat): seq<StreetSegment>
    decreases |plan| - i
  {
    if i >= |plan| then []
    else UpToDepot(plan[i].1, depot, 0) + (if ReachesDepot(plan[i].1, depot, 0) then [] else Processed(plan, depot, i + 1))
  }

  /** The items of the legs from i on that are completed without reaching the depot. */
  ghost function DeliveredItems(plan: seq<Leg>, depot: GeoCoord, i: nat): seq<string>
    decreases |plan| - i
  {
    if i >= |plan| then []
    else if ReachesDepot(plan[i].1, depot, 0) then []
    else [plan[i].0.item] + DeliveredItems(plan, depot, i + 1)
  }

  /** When the flag is clear, the last command is a proceed command. */
  ghost predicate Settled(st: Assembly)
  {
    !st.justTurnedOrDelivered ==> |st.commands| > 0 && st.commands[|st.commands| - 1].Proceed?
  }

  /** The commands start with c0; when the flag is clear, at least one was added after it. */
  ghost predicate Keeps(st: Assembly, c0: seq<DeliveryCommand>)
  {
    && |st.commands| >= |c0| && st.commands[..|c0|] == c0
    && (!st.justTurnedOrDelivered ==> |st.commands| > |c0|)
  }

  lemma {:induction false} TotalProceedSnoc(cmds: seq<DeliveryCommand>, c: DeliveryCommand)
    ensures TotalProceed(cmds + [c]) == TotalProceed(cmds) + (if c.Proceed? then c.distance else 0.0)
    ensures Delivered(cmds + [c]) == Delivered(cmds) + (if c.Deliver? then [c.item] else [])
  {
    assert (cmds + [c])[..|cmds|] == cmds;
  }

  /**
   * One segment's proceed part adds exactly its length to the proceed miles,
   * adds no deliver command and leaves a proceed command last.
   */
  lemma ProceedStepFacts(geo: Geometry, st: Assembly, seg: StreetSegment)
    requires Settled(st)
    ensures var cmds := ProceedStep(geo, st, seg);
      && Settled(Assembly(cmds, false))
      && TotalProceed(cmds) == TotalProceed(st.commands) + geo.dist(seg.start, seg.end)
      && Delivered(cmds) == Delivered(st.commands)
  {
    var cmds := st.commands;
    var dis := geo.dist(seg.start, seg.end);
    if !st.justTurnedOrDelivered && |cmds| > 0 && StreetName(cmds[|cmds| - 1]) == seg.name {
      var front := cmds[..|cmds| - 1];
      var last := cmds[|cmds| - 1];
      assert cmds == front + [last];
      TotalProceedSnoc(front, last);
      TotalProceedSnoc(front, Extended(last, dis));
    } else {
      TotalProceedSnoc(cmds, Proceed(GetProceedAngle(geo.angleOfLine(seg)), seg.name, dis));
    }
  }

  /** The proceed part rewrites at most a command added after c0. */
  lemma ProceedStepKeeps(geo: Geometry, st: Assembly, seg: StreetSegment, c0: seq<DeliveryCommand>)
    requires Keeps(st, c0)
    ensures Keeps(Assembly(ProceedStep(geo, st, seg), false), c0)
  {
    var cmds := st.commands;
    var dis := geo.dist(seg.start, seg.end);
    if !st.justTurnedOrDelivered && |cmds| > 0 && StreetName(cmds[|cmds| - 1]) == seg.name {
      assert (cmds[..|cmds| - 1] + [Extended(cmds[|cmds| - 1], dis)])[..|c0|] == cmds[..|c0|];
    } else {
      assert (cmds + [Proceed(GetProceedAngle(geo.angleOfLine(seg)), seg.name, dis)])[..|c0|] == cmds[..|c0|];
    }
  }

  /** The turn part adds no proceed miles and no deliver command. */
  lemma AfterSegmentFacts(geo: Geometry, cmds: seq<DeliveryCommand>, leg: seq<StreetSegment>, j: nat)
    requires j < |leg|
    requires Settled(Assembly(cmds, false))
    ensures var st := AfterSegment(geo, cmds, leg, j);
      && Settled(st)
      && TotalProceed(st.commands) == TotalProceed(cmds)
      && Delivered(st.commands) == Delivered(cmds)
  {
    if j + 1 < |leg| {
      var t := TurnCommand(geo.angleBetween(leg[j], leg[j + 1]), leg[j], leg[j + 1]);
      if |t| == 1 {
        assert t == [t[0]];
        TotalProceedSnoc(cmds, t[0]);
      } else {
        assert cmds + t == cmds;
      }
    }
  }

  /** The turn part only appends. */
  lemma AfterSegmentKeeps(geo: Geometry, cmds: seq<DeliveryCommand>, leg: seq<StreetSegment>, j: nat, c0: seq<DeliveryCommand>)
    requires j < |leg|
    requires Keeps(Assembly(cmds, false), c0)
    ensures Keeps(AfterSegment(geo, cmds, leg, j), c0)
  {
    if j + 1 < |leg| {
      var t := TurnCommand(geo.angleBetween(leg[j], leg[j + 1]), leg[j], leg[j + 1]);
      assert (cmds + t)[..|c0|] == cmds[..|c0|];
    }
  }

  /**
   * The inner loop from segment j: it stops early exactly when a later
   * segment ends at the depot, adds the length of the segments up to that
   * one to the proceed miles, and adds no deliver command.
   */
  lemma {:induction false} RunLegFacts(geo: Geometry, depot: GeoCoord, st: Assembly, leg: seq<StreetSegment>, j: nat)
    requires Settled(st)
    ensures var r := RunLeg(geo, depot, st, leg, j);
      && Settled(r.0)
      && (r.1 <==> ReachesDepot(leg, depot, j))
      && TotalProceed(r.0.commands) == TotalProceed(st.commands) + Router.PathLength(geo.dist, UpToDepot(leg, depot, j))
      && Delivered(r.0.commands) == Delivered(st.commands)
    decreases |leg| - j
  {
    if j < |leg| {
      var cmds := ProceedStep(geo, st, leg[j]);
      ProceedStepFacts(geo, st, leg[j]);
      var up := UpToDepot(leg, depot, j);
      assert up[0] == leg[j];
      if leg[j].end == depot {
        assert up == [leg[j]];
        assert ReachesDepot(leg, depot, j);
      } else {
        AfterSegmentFacts(geo, cmds, leg, j);
        RunLegFacts(geo, depot, AfterSegment(geo, cmds, leg, j), leg, j + 1);
        assert up[1..] == UpToDepot(leg, depot, j + 1);
        LegReachesStep(leg, depot, j);
      }
    } else {
      assert !ReachesDepot(leg, depot, j);
    }
  }

  /** The inner loop keeps c0 as a prefix. */
  lemma {:induction false} RunLegKeeps(geo: Geometry, depot: GeoCoord, st: Assembly, leg: seq<StreetSegment>, j: nat, c0: seq<DeliveryCommand>)
    requires Keeps(st, c0)
    ensures Keeps(RunLeg(geo, depot, st, leg, j).0, c0)
    decreases |leg| - j
  {
    if j < |leg| {
      var cmds := ProceedStep(geo, st, leg[j]);
      ProceedStepKeeps(geo, st, leg[j], c0);
      if leg[j].end != depot {
        AfterSegmentKeeps(geo, cmds, leg, j, c0);
        RunLegKeeps(geo, depot, AfterSegment(geo, cmds, leg, j), leg, j + 1, c0);
      }
    }
  }

  /** A leg reaches the depot from j on when segment j does or a later one does. */
  lemma LegReachesStep(leg: seq<StreetSegment>, depot: GeoCoord, j: nat)
    requires j < |leg|
    ensures ReachesDepot(leg, depot, j) <==> leg[j].end == depot || ReachesDepot(leg, depot, j + 1)
  {
    if ReachesDepot(leg, depot, j) && leg[j].end != depot {
      var k :| j <= k < |leg| && leg[k].end == depot;
      assert k != j;
    }
  }

  /** A plan reaches the depot from leg i on when leg i does or a later one does. */
  lemma PlanReachesStep(plan: seq<Leg>, depot: GeoCoord, i: nat)
    requires i < |plan|
    ensures PlanReachesDepot(plan, depot, i) <==> ReachesDepot(plan[i].1, depot, 0) || PlanReachesDepot(plan, depot, i + 1)
  {
    if PlanReachesDepot(plan, depot, i) && !ReachesDepot(plan[i].1, depot, 0) {
      var k :| i <= k < |plan| && ReachesDepot(plan[k].1, depot, 0);
      assert k != i;
    }
  }

  /** The length of two routes one after the other. */
  lemma {:induction false} PathLengthAppend(dist: (GeoCoord, GeoCoord) -> real, a: seq<StreetSegment>, b: seq<StreetSegment>)
    ensures Router.PathLength(dist, a + b) == Router.PathLength(dist, a) + Router.PathLength(dist, b)
    decreases |a|
  {
    if |a| > 0 {
      assert (a + b)[1..] == a[1..] + b;
      PathLengthAppend(dist, a[1..], b);
    } else {
      assert a + b == b;
    }
  }

  /** The outer loop from leg i keeps the commands it started from as a prefix. */
  lemma {:induction false} RunPlanKeeps(geo: Geometry, depot: GeoCoord, st: Assembly, plan: seq<Leg>, i: nat, c0: seq<DeliveryCommand>)
    requires Keeps(st, c0)
    ensures var cmds := RunPlan(geo, depot, st, plan, i).0;
      |cmds| >= |c0| && cmds[..|c0|] == c0
    decreases |plan| - i
  {
    if i < |plan| {
      var r := RunLeg(geo, depot, st, plan[i].1, 0);
      RunLegKeeps(geo, depot, st, plan[i].1, 0, c0);
      if !r.1 {
        var st2 := Assembly(r.0.commands + [Deliver(plan[i].0.item)], true);
        assert st2.commands[..|c0|] == r.0.commands[..|c0|];
        RunPlanKeeps(geo, depot, st2, plan, i + 1, c0);
      }
    }
  }

  /** The outer loop from leg i succeeds exactly when a leg from i on reaches the depot, and fails with NO_ROUTE otherwise. */
  lemma {:induction false} RunPlanOutcome(geo: Geometry, depot: GeoCoord, st: Assembly, plan: seq<Leg>, i: nat)
    requires Settled(st)
    ensures var r := RunPlan(geo, depot, st, plan, i);
      && (r.1 == DeliverySuccess || r.1 == NoRoute)
      && (r.1 == DeliverySuccess <==> PlanReachesDepot(plan, depot, i))
    decreases |plan| - i
  {
    if i < |plan| {
      var r := RunLeg(geo, depot, st, plan[i].1, 0);
      RunLegFacts(geo, depot, st, plan[i].1, 0);
      PlanReachesStep(plan, depot, i);
      if !r.1 {
        RunPlanOutcome(geo, depot, Assembly(r.0.commands + [Deliver(plan[i].0.item)], true), plan, i + 1);
      }
    } else {
      assert !PlanReachesDepot(plan, depot, i);
    }
  }

  /** The outer loop from leg i: the items it delivers and the proceed miles it adds. */
  lemma {:induction false} RunPlanFacts(geo: Geometry, depot: GeoCoord, st: Assembly, plan: seq<Leg>, i: nat)
    requires Settled(st)
    ensures var r := RunPlan(geo, depot, st, plan, i);
      && Delivered(r.0) == Delivered(st.commands) + DeliveredItems(plan, depot, i)
      && TotalProceed(r.0) == TotalProceed(st.commands) + Router.PathLength(geo.dist, Processed(plan, depot, i))
    decreases |plan| - i
  {
    if i < |plan| {
      var r := RunLeg(geo, depot, st, plan[i].1, 0);
      RunLegFacts(geo, depot, st, plan[i].1, 0);
      var up := UpToDepot(plan[i].1, depot, 0);
      if r.1 {
        assert Processed(plan, depot, i) == up + [];
        assert up + [] == up;
      } else {
        var d := Deliver(plan[i].0.item);
        var st2 := Assembly(r.0.commands + [d], true);
        TotalProceedSnoc(r.0.commands, d);
        RunPlanFacts(geo, depot, st2, plan, i + 1);
        PathLengthAppend(geo.dist, up, Processed(plan, depot, i + 1));
      }
    }
  }

  /**
   * Assembly only appends to the caller's commands; it succeeds exactly when
   * some routed segment ends at the depot; it delivers, in order, the items
   * of the legs completed before the depot is reached; and its proceed
   * commands cover exactly the length of the segments it looked at.
   */
  lemma AssemblePlanFacts(geo: Geometry, depot: GeoCoord, c0: seq<DeliveryCommand>, plan: seq<Leg>)
    ensures var (cmds, result) := AssemblePlan(geo, depot, c0, plan);
      && |cmds| >= |c0| && cmds[..|c0|] == c0
      && (result == DeliverySuccess || result == NoRoute)
      && (result == DeliverySuccess <==> exists k, j :: 0 <= k < |plan| && 0 <= j < |plan[k].1| && plan[k].1[j].end == depot)
      && Delivered(cmds) == Delivered(c0) + DeliveredItems(plan, depot, 0)
      && TotalProceed(cmds) == TotalProceed(c0) + Router.PathLength(geo.dist, Processed(plan, depot, 0))
  {
    assert c0[..|c0|] == c0;
    RunPlanKeeps(geo, depot, Assembly(c0, true), plan, 0, c0);
    RunPlanOutcome(geo, depot, Assembly(c0, true), plan, 0);
    RunPlanFacts(geo, depot, Assembly(c0, true), plan, 0);
    if exists k, j :: 0 <= k < |plan| && 0 <= j < |plan[k].1| && plan[k].1[j].end == depot {
      var k, j :| 0 <= k < |plan| && 0 <= j < |plan[k].1| && plan[k].1[j].end == depot;
      assert ReachesDepot(plan[k].1, depot, 0);
    }
  }

  /** UpToDepot takes the rest of a leg when only its last segment may end at the depot. */
  lemma {:induction false} UpToDepotWhole(leg: seq<StreetSegment>, depot: GeoCoord, j: nat)
    requires j <= |leg|
    requires forall m :: j <= m < |leg| - 1 ==> leg[m].end != depot
    ensures UpToDepot(leg, depot, j) == leg[j..]
    decreases |leg| - j
  {
    if j < |leg| {
      if leg[j].end == depot {
        assert j == |leg| - 1;
        assert leg[j..] == [leg[j]];
      } else {
        UpToDepotWhole(leg, depot, j + 1);
        assert leg[j..] == [leg[j]] + leg[j + 1..];
      }
    }
  }

  // ---------------------------------------------------------------------
  // generateDeliveryPlan
  // ---------------------------------------------------------------------

  /** The coordinate leg k starts from: the depot, then each delivery's location in turn. */
  function From(depot: GeoCoord, order: seq<DeliveryRequest>, k: nat): GeoCoord
    requires k <= |order|
  {
    if k == 0 then depot else order[k - 1].location
  }

  /** The routed lengths of the legs, summed in order. */
  function LegsLength(dist: (GeoCoord, GeoCoord) -> real, plan: seq<Leg>): real
    decreases |plan|
  {
    if |plan| == 0 then 0.0 else LegsLength(dist, plan[..|plan| - 1]) + Router.PathLength(dist, plan[|plan| - 1].1)
  }

  /** Only the last segment of the leg ends at the depot. */
  ghost predicate EndsAtDepotOnly(leg: seq<StreetSegment>, depot: GeoCoord)
  {
    && |leg| > 0 && leg[|leg| - 1].end == depot
    && forall m :: 0 <= m < |leg| - 1 ==> leg[m].end != depot
  }

  /**
   * A plan in the usual shape: no delivery leg passes the depot, and the
   * return leg ends at the depot with its last segment only.
   */
  ghost predicate CompleteAt(plan: seq<Leg>, depot: GeoCoord)
  {
    && |plan| >= 1
    && (forall k :: 0 <= k < |plan| - 1 ==> !ReachesDepot(plan[k].1, depot, 0))
    && EndsAtDepotOnly(plan[|plan| - 1].1, depot)
  }

  /** In a plan of the usual shape, each leg from i on is delivered in order, except the return leg. */
  lemma {:induction false} CompleteItems(plan: seq<Leg>, depot: GeoCoord, i: nat)
    requires CompleteAt(plan, depot) && i <= |plan| - 1
    ensures DeliveredItems(plan, depot, i) == seq(|plan| - 1 - i, m requires 0 <= m < |plan| - 1 - i => plan[i + m].0.item)
    decreases |plan| - i
  {
    if i == |plan| - 1 {
      var leg := plan[i].1;
      assert leg[|leg| - 1].end == depot;
      assert ReachesDepot(leg, depot, 0);
    } else {
      CompleteItems(plan, depot, i + 1);
    }
  }

  /** In a plan of the usual shape, assembly looks at every segment of every leg from i on. */
  lemma {:induction false} CompleteLength(dist: (GeoCoord, GeoCoord) -> real, plan: seq<Leg>, depot: GeoCoord, i: nat)
    requires CompleteAt(plan, depot) && i <= |plan| - 1
    ensures Router.PathLength(dist, Processed(plan, depot, i)) == LegsLength(dist, plan) - LegsLength(dist, plan[..i])
    decreases |plan| - i
  {
    var leg := plan[i].1;
    var here := Router.PathLength(dist, leg);
    assert plan[..i + 1][..i] == plan[..i];
    assert LegsLength(dist, plan[..i + 1]) == LegsLength(dist, plan[..i]) + here;
    UpToDepotWhole(leg, depot, 0);
    assert leg[0..] == leg;
    if i == |plan| - 1 {
      assert leg[|leg| - 1].end == depot;
      assert ReachesDepot(leg, depot, 0);
      assert Processed(plan, depot, i) == leg + [];
      assert leg + [] == leg;
      assert plan[..i + 1] == plan;
    } else {
      assert Processed(plan, depot, i) == leg + Processed(plan, depot, i + 1);
      CompleteLength(dist, plan, depot, i + 1);
      PathLengthAppend(dist, leg, Processed(plan, depot, i + 1));
    }
  }

  /**
   * For a plan in the usual shape, assembly succeeds, delivers every
   * delivery leg's item in order and nothing else, and its proceed commands
   * cover exactly the summed length of all legs, the return leg included.
   */
  lemma CompletePlan(geo: Geometry, depot: GeoCoord, c0: seq<DeliveryCommand>, plan: seq<Leg>)
    requires CompleteAt(plan, depot)
    ensures var (cmds, result) := AssemblePlan(geo, depot, c0, plan);
      && result == DeliverySuccess
      && Delivered(cmds) == Delivered(c0) + seq(|plan| - 1, m requires 0 <= m < |plan| - 1 => plan[m].0.item)
      && TotalProceed(cmds) == TotalProceed(c0) + LegsLength(geo.dist, plan)
  {
    AssemblePlanFacts(geo, depot, c0, plan);
    CompleteItems(plan, depot, 0);
    CompleteLength(geo.dist, plan, depot, 0);
    assert plan[..0] == [];
    var back := plan[|plan| - 1].1;
    assert back[|back| - 1].end == depot;
  }

  /**
   * With no deliveries the only leg is the empty route from the depot to
   * itself: nothing reaches the depot, so the plan is NO_ROUTE with one
   * deliver command for the return leg's empty item.
   */
  lemma NoDeliveries(geo: Geometry, depot: GeoCoord, c0: seq<DeliveryCommand>)
    ensures AssemblePlan(geo, depot, c0, [(DeliveryRequest("", depot), [])]) == (c0 + [Deliver("")], NoRoute)
  {
    var plan: seq<Leg> := [(DeliveryRequest("", depot), [])];
    var st := Assembly(c0, true);
    assert RunLeg(geo, depot, st, plan[0].1, 0) == (st, false);
    var st2 := Assembly(c0 + [Deliver("")], true);
    assert RunPlan(geo, depot, st2, plan, 1) == (c0 + [Deliver("")], NoRoute);
    assert RunPlan(geo, depot, st, plan, 0) == RunPlan(geo, depot, st2, plan, 1);
  }

  /** A failed leg: BAD_COORD when an end has no segments, NO_ROUTE when no route joins them. */
  ghost predicate LegFailed(S: SegmentIndex, result: DeliveryResult, a: GeoCoord, b: GeoCoord)
  {
    || (result == BadCoord && (SegmentsAt(S, a) == [] || SegmentsAt(S, b) == []))
    || (result == NoRoute && SegmentsAt(S, a) != [] && SegmentsAt(S, b) != [] && forall r :: !Router.IsRoute(S, a, b, r))
  }

  /** Each leg so far routes from where the previous one ended to its delivery's location. */
  ghost predicate RoutedLegs(S: SegmentIndex, depot: GeoCoord, order: seq<DeliveryRequest>, legs: seq<Leg>)
    decreases |legs|
  {
    && |legs| <= |order|
    && (|legs| > 0 ==>
         && RoutedLegs(S, depot, order, legs[..|legs| - 1])
         && legs[|legs| - 1].0 == order[|legs| - 1]
         && Router.IsRoute(S, From(depot, order, |legs| - 1), order[|legs| - 1].location, legs[|legs| - 1].1))
  }

  /** RoutedLegs, leg by leg. */
  lemma {:induction false} RoutedLegsEach(S: SegmentIndex, depot: GeoCoord, order: seq<DeliveryRequest>, legs: seq<Leg>)
    requires RoutedLegs(S, depot, order, legs)
    ensures forall k :: 0 <= k < |legs| ==>
      legs[k].0 == order[k] && Router.IsRoute(S, From(depot, order, k), order[k].location, legs[k].1)
    decreases |legs|
  {
    if |legs| > 0 {
      var front := legs[..|legs| - 1];
      RoutedLegsEach(S, depot, order, front);
      forall k | 0 <= k < |legs| - 1
        ensures legs[k].0 == order[k] && Router.IsRoute(S, From(depot, order, k), order[k].location, legs[k].1)
      {
        assert legs[k] == front[k];
      }
    }
  }

  /**
   * The delivery-leg loop of generateDeliveryPlan: route from the depot to
   * each stop in turn and add up the routed lengths, stopping at the first
   * leg that fails.  d is the router's in/out distance, carried from leg to leg.
   */
  method RouteDeliveries(sm: StreetMap, strHash: string -> nat, dist: (GeoCoord, GeoCoord) -> real,
                         depot: GeoCoord, order: seq<DeliveryRequest>, dIn: real)
    returns (legResult: DeliveryResult, legs: seq<Leg>, total: real, g: GeoCoord, d: real)
    requires sm.Valid()
    ensures RoutedLegs(sm.Segs(), depot, order, legs)
    ensures total == LegsLength(dist, legs)
    ensures |legs| < |order| ==> LegFailed(sm.Segs(), legResult, From(depot, order, |legs|), order[|legs|].location)
    ensures |legs| == |order| <==> legResult == DeliverySuccess
    ensures |legs| == |order| ==> g == From(depot, order, |order|)
    ensures d == if |legs| > 0 then Router.PathLength(dist, legs[|legs| - 1].1) else dIn
  {
    ghost var S := sm.Segs();
    legs := [];
    g := depot;
    d := dIn;
    total := 0.0;
    legResult := DeliverySuccess;
    for i := 0 to |order|
      invariant sm.Valid() && sm.Segs() == S
      invariant |legs| == i && g == From(depot, order, i)
      invariant RoutedLegs(S, depot, order, legs)
      invariant total == LegsLength(dist, legs)
      invariant d == if i > 0 then Router.PathLength(dist, legs[i - 1].1) else dIn
      invariant legResult == DeliverySuccess
    {
      var temp;
      legResult, temp, d := Router.GeneratePointToPointRoute(sm, strHash, dist, g, order[i].location, d);
      if legResult == NoRoute || legResult == BadCoord {
        return;
      }
      total := total + d;
      assert (legs + [(order[i], temp)])[..i] == legs;
      legs := legs + [(order[i], temp)];
      g := order[i].location;
    }
  }

  /**
   * The tail of generateDeliveryPlan: route the last stop back to the depot,
   * ignoring the result (a failed route leaves the route empty and d as it
   * was, and d is added all the same), append the return leg with an empty
   * item, then assemble the commands.
   */
  method ReturnAndAssemble(sm: StreetMap, strHash: string -> nat, geo: Geometry, depot: GeoCoord,
                           order: seq<DeliveryRequest>, legsIn: seq<Leg>, g: GeoCoord, dIn: real, totalIn: real,
                           commandsIn: seq<DeliveryCommand>)
    returns (commands: seq<DeliveryCommand>, result: DeliveryResult, total: real, ghost plan: seq<Leg>)
    requires sm.Valid()
    ensures |plan| == |legsIn| + 1 && plan[..|legsIn|] == legsIn
    ensures plan[|legsIn|].0 == DeliveryRequest("", depot)
    ensures (commands, result) == AssemblePlan(geo, depot, commandsIn, plan)
    ensures || (Router.IsRoute(sm.Segs(), g, depot, plan[|legsIn|].1) && total == totalIn + Router.PathLength(geo.dist, plan[|legsIn|].1))
            || (plan[|legsIn|].1 == [] && total == totalIn + dIn)
    ensures |commands| >= |commandsIn| && commands[..|commandsIn|] == commandsIn
    ensures legsIn == [] && g == depot ==> result == NoRoute && commands == commandsIn + [Deliver("")]
  {
    var back := DeliveryRequest("", depot);
    var backResult, temp, d;
    backResult, temp, d := Router.GeneratePointToPointRoute(sm, strHash, geo.dist, g, depot, dIn);
    total := totalIn + d;
    var legs := legsIn + [(back, temp)];
    assert legs[..|legsIn|] == legsIn;
    commands, result := AssembleCommands(geo, depot, legs, commandsIn);
    AssemblePlanFacts(geo, depot, commandsIn, legs);
    if legsIn == [] && g == depot {
      assert legs == [(back, [])];
      NoDeliveries(geo, depot, commandsIn);
    }
    plan := legs;
  }

  /**
   * A delivery leg failed: the legs before it were routed, the total is
   * their routed length, and the failing leg's result says why.
   */
  ghost predicate FailedAt(S: SegmentIndex, dist: (GeoCoord, GeoCoord) -> real, depot: GeoCoord,
                           order: seq<DeliveryRequest>, plan: seq<Leg>, result: DeliveryResult, total: real)
  {
    && |plan| < |order|
    && RoutedLegs(S, depot, order, plan)
    && total == LegsLength(dist, plan)
    && LegFailed(S, result, From(depot, order, |plan|), order[|plan|].location)
  }

  /**
   * Every delivery leg was routed and the return leg, with an empty item,
   * was appended: either it is a route back to the depot and the total is
   * the routed length of all legs, or it came back empty and the total also
   * holds the stale distance: the last delivery leg's length or, with no
   * deliveries, the optimizer's crow distance accumulated onto dInit.
   */
  ghost predicate Returned(S: SegmentIndex, dist: (GeoCoord, GeoCoord) -> real, depot: GeoCoord,
                           order: seq<DeliveryRequest>, plan: seq<Leg>, total: real, dInit: real)
  {
    && |plan| == |order| + 1
    && RoutedLegs(S, depot, order, plan[..|order|])
    && plan[|order|].0 == DeliveryRequest("", depot)
    && (|| (Router.IsRoute(S, From(depot, order, |order|), depot, plan[|order|].1) && total == LegsLength(dist, plan))
        || (&& plan[|order|].1 == []
            && total == LegsLength(dist, plan) +
               (if |order| > 0 then Router.PathLength(dist, plan[|order| - 1].1)
                else dInit + Optimizer.TourCost(dist, depot, []))))
  }

  /** The totals of the two halves of generateDeliveryPlan make up Returned. */
  lemma {:induction false} ReturnedTotal(S: SegmentIndex, dist: (GeoCoord, GeoCoord) -> real, depot: GeoCoord,
                                         order: seq<DeliveryRequest>, legs: seq<Leg>, plan: seq<Leg>,
                                         stale: real, dInit: real, totalIn: real, total: real)
    requires |legs| == |order| && RoutedLegs(S, depot, order, legs)
    requires |plan| == |order| + 1 && plan[..|order|] == legs && plan[|order|].0 == DeliveryRequest("", depot)
    requires totalIn == LegsLength(dist, legs)
    requires stale == if |legs| > 0 then Router.PathLength(dist, legs[|legs| - 1].1) else dInit + Optimizer.TourCost(dist, depot, order)
    requires || (Router.IsRoute(S, From(depot, order, |order|), depot, plan[|order|].1) && total == totalIn + Router.PathLength(dist, plan[|order|].1))
             || (plan[|order|].1 == [] && total == totalIn + stale)
    ensures Returned(S, dist, depot, order, plan, total, dInit)
  {
    assert plan[..|plan| - 1] == legs;
    if |order| > 0 {
      assert plan[|order| - 1] == legs[|legs| - 1];
    }
  }

  /**
   * generateDeliveryPlan.  The optimizer reorders a copy of the deliveries
   * (the uninitialised `d` it accumulates onto is dInit); each delivery leg
   * is routed from the previous stop, and a failing leg's result is returned
   * at once with the commands untouched; the return leg's result is ignored,
   * so a failed return leg contributes an empty route and the stale `d`;
   * then the routed legs are assembled onto the caller's commands.
   */
  method GenerateDeliveryPlan(sm: StreetMap, strHash: string -> nat, geo: Geometry, rand: nat -> nat, exp: real -> real,
                              depot: GeoCoord, deliveries: seq<DeliveryRequest>, commandsIn: seq<DeliveryCommand>, dInit: real)
    returns (result: DeliveryResult, commands: seq<DeliveryCommand>, total: real,
             ghost order: seq<DeliveryRequest>, ghost plan: seq<Leg>)
    requires sm.Valid()
    ensures multiset(order) == multiset(deliveries) && |order| == |deliveries|
    ensures || (FailedAt(sm.Segs(), geo.dist, depot, order, plan, result, total) && commands == commandsIn)
            || (Returned(sm.Segs(), geo.dist, depot, order, plan, total, dInit)
                && (commands, result) == AssemblePlan(geo, depot, commandsIn, plan))
    ensures |commands| >= |commandsIn| && commands[..|commandsIn|] == commandsIn
    ensures |deliveries| == 0 ==> result == NoRoute && commands == commandsIn + [Deliver("")]
  {
    var orderedDeliveries: seq<DeliveryRequest> := [];
    for i := 0 to |deliveries|
      invariant orderedDeliveries == deliveries[..i]
    {
      orderedDeliveries := orderedDeliveries + [deliveries[i]];
    }
    assert deliveries[..|deliveries|] == deliveries;
    var d, dd;
    orderedDeliveries, d, dd := Optimizer.OptimizeDeliveryOrder(geo.dist, rand, exp, depot, orderedDeliveries, dInit);
    order := orderedDeliveries;
    var legResult, legs, g;
    legResult, legs, total, g, d := RouteDeliveries(sm, strHash, geo.dist, depot, orderedDeliveries, d);
    if legResult == NoRoute || legResult == BadCoord {
      assert commandsIn[..|commandsIn|] == commandsIn;
      return legResult, commandsIn, total, order, legs;
    }
    var commands', result', total', plan' := ReturnAndAssemble(sm, strHash, geo, depot, orderedDeliveries, legs, g, d, total, commandsIn);
    ReturnedTotal(sm.Segs(), geo.dist, depot, order, legs, plan', d, dInit, total, total');
    commands, result, total := commands', result', total';
    plan := plan';
  }
}
