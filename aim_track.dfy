/**
 * The AimTrack training page (src/pages/AimTrack.tsx): a session that is
 * started from a fixed catalog of scenarios, shows a batch of targets in
 * the game area, scores one point per hit, respawns the batch shortly after
 * each hit and counts down one second at a time until it ends.
 *
 * `Math.random()` draws and `Date.now()` readings are parameters, one
 * reading per pass of the spawn loop. Every timer is an
 * explicit event: `Tick` is one firing of the one-second countdown and
 * `FireRespawn` the 100 ms timeout a hit schedules.
 */
module AimTrack {
  import opened Wrappers
  import opened RandomDraw

  /** A catalog entry: how long the scenario runs, how many targets, how big. */
  datatype Scenario = Scenario(id: string, name: string, duration: int, targetCount: nat, targetSize: real)

  /** The four scenarios the page offers, in display order. */
  const Catalog: seq<Scenario> := [
    Scenario("grid", "Grid Shot", 60, 1, 80.0),
    Scenario("tracking", "Tracking", 45, 1, 60.0),
    Scenario("flick", "Flick Shot", 30, 1, 50.0),
    Scenario("multi", "Multi Target", 60, 3, 70.0)
  ]

  /** A target as displayed: `x`, `y` the top-left corner in the game area. */
  datatype Target = Target(id: int, x: real, y: real, size: real)

  /** The game area's bounding rectangle. */
  datatype Area = Area(width: real, height: real)

  /**
   * What one pass of the spawn loop reads: the `Date.now()` reading that
   * makes the target's id, and the two `Math.random()` results that place it.
   */
  datatype Draw = Draw(now: int, rx: real, ry: real)

  /** Enough draws for `count` targets, each in range. */
  predicate ValidDraws(draws: seq<Draw>, count: nat)
  {
    count <= |draws| &&
    forall i :: 0 <= i < |draws| ==> IsUnit(draws[i].rx) && IsUnit(draws[i].ry)
  }

  /** `ss.find(s => s.id === id)`: the first scenario with that id. */
  function FindIn(ss: seq<Scenario>, id: string): (r: Option<Scenario>)
    ensures r.Some? ==> r.value in ss && r.value.id == id
  {
    if ss == [] then None
    else if ss[0].id == id then Some(ss[0])
    else FindIn(ss[1..], id)
  }

  /**
   * `find` gives nothing exactly when no scenario has the id, and otherwise
   * the first one that has it.
   */
  lemma {:induction false} FindInFirstMatch(ss: seq<Scenario>, id: string)
    ensures FindIn(ss, id).None? <==> forall i :: 0 <= i < |ss| ==> ss[i].id != id
    ensures FindIn(ss, id).Some? ==>
      exists i :: 0 <= i < |ss| && ss[i] == FindIn(ss, id).value && forall j :: 0 <= j < i ==> ss[j].id != id
  {
    if ss != [] && ss[0].id != id {
      FindInFirstMatch(ss[1..], id);
      var r := FindIn(ss[1..], id);
      assert FindIn(ss, id) == r;
      if r.Some? {
        var i :| 0 <= i < |ss[1..]| && ss[1..][i] == r.value && forall j :: 0 <= j < i ==> ss[1..][j].id != id;
        assert ss[i + 1] == r.value;
        assert forall j :: 0 <= j < i + 1 ==> ss[j].id != id by {
          forall j | 0 <= j < i + 1
            ensures ss[j].id != id
          {
            if j > 0 {
              assert ss[j] == ss[1..][j - 1];
            }
          }
        }
      } else {
        assert forall i :: 0 <= i < |ss| ==> ss[i].id != id by {
          forall i | 0 <= i < |ss|
            ensures ss[i].id != id
          {
            if i > 0 {
              assert ss[i] == ss[1..][i - 1];
            }
          }
        }
      }
    } else if ss != [] {
      assert ss[0] == FindIn(ss, id).value;
    }
  }

  /** The catalog lookup both `startScenario` and `handleTargetClick` begin with. */
  function Find(id: string): (r: Option<Scenario>)
    ensures r.Some? ==> r.value in Catalog && r.value.id == id
  {
    FindIn(Catalog, id)
  }

  /** The scenario a session's `scenario` field names, if any. */
  function Selected(scenario: Option<string>): (r: Option<Scenario>)
    ensures scenario.None? ==> r.None?
    ensures r.Some? ==> scenario.Some? && r.value in Catalog && r.value.id == scenario.value
  {
    if scenario.None? then None else Find(scenario.value)
  }

  /** Every catalog entry runs for some time and shows at least one target. */
  lemma CatalogEntriesAreLive(s: Scenario)
    requires s in Catalog
    ensures s.duration > 0 && s.targetCount >= 1 && s.targetSize > 0.0
  {
  }

  /**
   * `gameAreaRef.current`: the game area is rendered, and so measurable,
   * only while some scenario is selected (the selection menu is shown
   * otherwise).
   */
  function MountedArea(rendered: Option<string>, rect: Area): (r: Option<Area>)
    ensures r.Some? <==> rendered.Some?
    ensures r.Some? ==> r.value == rect
  {
    if rendered.Some? then Some(rect) else None
  }

  /** `Math.random() * span`, for the draw `r`. */
  function Scaled(r: real, span: real): real
  {
    r * span
  }

  /** The target pushed at step `i` of the spawn loop, from that step's readings. */
  function Place(i: int, size: real, area: Area, d: Draw): Target
  {
    Target(d.now + i, Scaled(d.rx, area.width - size), Scaled(d.ry, area.height - size), size)
  }

  /**
   * The batch `spawnTargets` builds: `count` targets of the given size, the
   * `i`-th with id `Date.now() + i` for the clock as read on pass `i`.
   */
  function Batch(count: nat, size: real, area: Area, draws: seq<Draw>): (r: seq<Target>)
    requires count <= |draws|
    ensures |r| == count
    ensures forall i :: 0 <= i < count ==> r[i].id == draws[i].now + i && r[i].size == size
  {
    seq(count, i requires 0 <= i < count => Place(i, size, area, draws[i]))
  }

  /** The clock never steps back during the first `count` passes of the loop. */
  predicate ClockForward(draws: seq<Draw>, count: nat)
    requires count <= |draws|
  {
    forall i, j :: 0 <= i <= j < count ==> draws[i].now <= draws[j].now
  }

  /**
   * While the clock does not step back, a batch's ids are pairwise
   * distinct: a later pass adds a larger `i` to a reading at least as large.
   */
  lemma BatchIdsDistinct(count: nat, size: real, area: Area, draws: seq<Draw>)
    requires count <= |draws| && ClockForward(draws, count)
    ensures forall i, j :: 0 <= i < j < count ==>
      Batch(count, size, area, draws)[i].id != Batch(count, size, area, draws)[j].id
  {
    var b := Batch(count, size, area, draws);
    forall i, j | 0 <= i < j < count
      ensures b[i].id != b[j].id
    {
      assert draws[i].now <= draws[j].now;
    }
  }

  /**
   * A clock that steps back by one between two passes gives both targets
   * the same id: readings 10 then 9 make ids 10 + 0 and 9 + 1.
   */
  lemma ClockStepBackRepeatsId(size: real, area: Area)
    ensures var b := Batch(2, size, area, [Draw(10, 0.0, 0.0), Draw(9, 0.0, 0.0)]);
            b[0].id == b[1].id == 10
  {
    var b := Batch(2, size, area, [Draw(10, 0.0, 0.0), Draw(9, 0.0, 0.0)]);
    assert b[0].id == 10 + 0;
    assert b[1].id == 9 + 1;
  }

  /** `Math.random() * span` lies in [0, span) for a positive span. */
  lemma ScaledInside(r: real, span: real)
    requires IsUnit(r) && span > 0.0
    ensures 0.0 <= Scaled(r, span) < span
  {
    assert span - r * span == (1.0 - r) * span;
  }

  /**
   * When the area is larger than a target, every target of a batch lies
   * wholly inside it: no coordinate is negative or beyond the far edge
   * minus the target's size.
   */
  lemma BatchInsideArea(count: nat, size: real, area: Area, draws: seq<Draw>)
    requires ValidDraws(draws, count)
    requires area.width > size && area.height > size
    ensures forall i :: 0 <= i < count ==>
      0.0 <= Batch(count, size, area, draws)[i].x < area.width - size &&
      0.0 <= Batch(count, size, area, draws)[i].y < area.height - size
  {
    var b := Batch(count, size, area, draws);
    forall i | 0 <= i < count
      ensures 0.0 <= b[i].x < area.width - size && 0.0 <= b[i].y < area.height - size
    {
      assert b[i] == Place(i, size, area, draws[i]);
      ScaledInside(draws[i].rx, area.width - size);
      ScaledInside(draws[i].ry, area.height - size);
    }
  }

  /** The `for` loop of `spawnTargets`, pushing one target per step. */
  method BuildTargets(count: nat, size: real, area: Area, draws: seq<Draw>)
    returns (newTargets: seq<Target>)
    requires count <= |draws|
    ensures newTargets == Batch(count, size, area, draws)
  {
    newTargets := [];
    for i := 0 to count
      invariant |newTargets| == i
      invariant forall j :: 0 <= j < i ==> newTargets[j] == Place(j, size, area, draws[j])
    {
      newTargets := newTargets + [Target(draws[i].now + i,
                                         Scaled(draws[i].rx, area.width - size),
                                         Scaled(draws[i].ry, area.height - size),
                                         size)];
    }
  }

  /** `prev.filter(t => t.id !== id)`. */
  function Without(ts: seq<Target>, id: int): (r: seq<Target>)
    ensures |r| <= |ts|
  {
    if ts == [] then []
    else if ts[0].id == id then Without(ts[1..], id)
    else [ts[0]] + Without(ts[1..], id)
  }

  /** A click on an id no target has removes nothing. */
  lemma {:induction false} WithoutAbsent(ts: seq<Target>, id: int)
    requires forall i :: 0 <= i < |ts| ==> ts[i].id != id
    ensures Without(ts, id) == ts
    decreases |ts|
  {
    if ts != [] {
      assert ts[0].id != id;
      WithoutAbsent(ts[1..], id);
      assert [ts[0]] + ts[1..] == ts;
    }
  }

  /** Removing a hit target removes exactly the targets with its id. */
  lemma {:induction false} WithoutMembers(ts: seq<Target>, id: int)
    ensures forall t :: t in Without(ts, id) <==> t in ts && t.id != id
    decreases |ts|
  {
    if ts != [] {
      WithoutMembers(ts[1..], id);
      assert forall t :: t in ts <==> t == ts[0] || t in ts[1..];
    }
  }

  /** Removing a hit target keeps the other targets in their order. */
  lemma {:induction false} WithoutAppend(a: seq<Target>, b: seq<Target>, id: int)
    ensures Without(a + b, id) == Without(a, id) + Without(b, id)
    decreases |a|
  {
    if a == [] {
      assert a + b == b;
    } else {
      WithoutAppend(a[1..], b, id);
      assert (a + b)[0] == a[0];
      assert (a + b)[1..] == a[1..] + b;
      if a[0].id == id {
        calc {
          Without(a + b, id);
          Without(a[1..] + b, id);
          Without(a[1..], id) + Without(b, id);
        }
      } else {
        calc {
          Without(a + b, id);
          [a[0]] + Without(a[1..] + b, id);
          [a[0]] + (Without(a[1..], id) + Without(b, id));
          ([a[0]] + Without(a[1..], id)) + Without(b, id);
        }
      }
    }
  }

  /** The timeout a hit schedules, with what the click handler captured. */
  datatype Respawn = Respawn(wasActive: bool, scenario: Scenario)

  class Session {
    var scenario: Option<string>
    var targets: seq<Target>
    var score: int
    var timeLeft: int
    var isActive: bool

    /** What every reachable session state satisfies. */
    ghost predicate Valid()
      reads this
    {
      0 <= score && 0 <= timeLeft &&
      (isActive ==> scenario.Some? && timeLeft > 0) &&
      (scenario.Some? ==> Find(scenario.value).Some? && timeLeft <= Find(scenario.value).value.duration) &&
      (scenario.None? ==> targets == [] && score == 0 && timeLeft == 0)
    }

    /** No targets are shown outside a running session. */
    ghost predicate EndedClean()
      reads this
    {
      !isActive ==> targets == []
    }

    /** The page's initial state: the selection menu, nothing running. */
    constructor ()
      ensures Valid() && EndedClean()
      ensures scenario == None && targets == [] && score == 0 && timeLeft == 0 && !isActive
    {
      scenario := None;
      targets := [];
      score := 0;
      timeLeft := 0;
      isActive := false;
    }

    /**
     * `spawnTargets`: with no game area nothing happens; otherwise the
     * whole target list is replaced by a fresh batch.
     */
    method SpawnTargets(count: nat, size: real, area: Option<Area>, draws: seq<Draw>)
      requires ValidDraws(draws, count)
      modifies this`targets
      ensures targets == if area.None? then old(targets) else Batch(count, size, area.value, draws)
    {
      if area.None? {
        return;
      }
      var newTargets := BuildTargets(count, size, area.value, draws);
      targets := newTargets;
    }

    /**
     * `startScenario`, as written: an unknown id changes nothing; a catalog
     * id starts that scenario and asks for its targets. The spawn sees the
     * game area as last rendered, which exists only if a scenario was
     * already selected before this call.
     */
    method StartScenario(id: string, rect: Area, draws: seq<Draw>)
      requires Valid()
      requires Find(id).Some? ==> ValidDraws(draws, Find(id).value.targetCount)
      modifies this
      ensures Valid()
      ensures Find(id).None? ==>
        scenario == old(scenario) && targets == old(targets) && score == old(score) &&
        timeLeft == old(timeLeft) && isActive == old(isActive)
      ensures Find(id).Some? ==>
        scenario == Some(id) && score == 0 && timeLeft == Find(id).value.duration && isActive &&
        targets == if old(scenario).None? then old(targets)
                   else Batch(Find(id).value.targetCount, Find(id).value.targetSize, rect, draws)
    {
      var selected := Find(id);
      if selected.None? {
        return;
      }
      CatalogEntriesAreLive(selected.value);
      var area := MountedArea(scenario, rect);
      scenario := Some(id);
      score := 0;
      timeLeft := selected.value.duration;
      isActive := true;
      SpawnTargets(selected.value.targetCount, selected.value.targetSize, area, draws);
    }

    /**
     * `startScenario` with the spawn made once the game area is rendered
     * for the new scenario: the session starts with the scenario's full
     * batch of targets.
     */
    method StartScenarioAfterMount(id: string, rect: Area, draws: seq<Draw>)
      requires Valid()
      requires Find(id).Some? ==> ValidDraws(draws, Find(id).value.targetCount)
      modifies this
      ensures Valid()
      ensures old(EndedClean()) ==> EndedClean()
      ensures Find(id).None? ==>
        scenario == old(scenario) && targets == old(targets) && score == old(score) &&
        timeLeft == old(timeLeft) && isActive == old(isActive)
      ensures Find(id).Some? ==>
        scenario == Some(id) && score == 0 && timeLeft == Find(id).value.duration && isActive &&
        targets == Batch(Find(id).value.targetCount, Find(id).value.targetSize, rect, draws) &&
        |targets| == Find(id).value.targetCount
    {
      var selected := Find(id);
      if selected.None? {
        return;
      }
      CatalogEntriesAreLive(selected.value);
      scenario := Some(id);
      score := 0;
      timeLeft := selected.value.duration;
      isActive := true;
      SpawnTargets(selected.value.targetCount, selected.value.targetSize, MountedArea(scenario, rect), draws);
    }

    /**
     * `handleTargetClick`: without a selected scenario nothing happens and
     * no respawn is scheduled. Otherwise the score goes up by exactly one,
     * every target with the clicked id is removed, and a respawn is
     * scheduled carrying `isActive` and the scenario as the click saw them.
     */
    method HandleTargetClick(targetId: int) returns (respawn: Option<Respawn>)
      requires Valid()
      modifies this`score, this`targets
      ensures Valid()
      ensures old(EndedClean()) ==> EndedClean()
      ensures scenario.None? ==> respawn.None? && score == old(score) && targets == old(targets)
      ensures scenario.Some? ==>
        score == old(score) + 1 && targets == Without(old(targets), targetId) &&
        respawn == Some(Respawn(isActive, Find(scenario.value).value))
    {
      var selected := Selected(scenario);
      if selected.None? {
        return None;
      }
      score := score + 1;
      targets := Without(targets, targetId);
      respawn := Some(Respawn(isActive, selected.value));
    }

    /**
     * The 100 ms respawn timeout, as written: it spawns the captured
     * scenario's batch if `isActive` was true when the click happened,
     * whether or not the session is still running now.
     */
    method FireRespawn(p: Respawn, rect: Area, draws: seq<Draw>)
      requires Valid()
      requires ValidDraws(draws, p.scenario.targetCount)
      modifies this`targets
      ensures Valid()
      ensures targets == if p.wasActive && scenario.Some?
                         then Batch(p.scenario.targetCount, p.scenario.targetSize, rect, draws)
                         else old(targets)
    {
      if p.wasActive {
        SpawnTargets(p.scenario.targetCount, p.scenario.targetSize, MountedArea(scenario, rect), draws);
      }
    }

    /** The respawn timeout reading the session's current `isActive`. */
    method FireRespawnChecked(p: Respawn, rect: Area, draws: seq<Draw>)
      requires Valid()
      requires ValidDraws(draws, p.scenario.targetCount)
      modifies this`targets
      ensures Valid()
      ensures old(EndedClean()) ==> EndedClean()
      ensures targets == if isActive
                         then Batch(p.scenario.targetCount, p.scenario.targetSize, rect, draws)
                         else old(targets)
    {
      if isActive {
        SpawnTargets(p.scenario.targetCount, p.scenario.targetSize, MountedArea(scenario, rect), draws);
      }
    }

    /** `reset`: back to the selection menu, from any state. */
    method Reset()
      modifies this
      ensures Valid() && EndedClean()
      ensures scenario == None && targets == [] && score == 0 && timeLeft == 0 && !isActive
    {
      scenario := None;
      targets := [];
      score := 0;
      timeLeft := 0;
      isActive := false;
    }

    /**
     * One firing of the countdown interval, followed by the effect that
     * re-runs on the new `timeLeft`: while active the time goes down by
     * exactly one second; when it reaches zero the session stops and its
     * targets are cleared. Score and scenario never change here.
     */
    method Tick()
      requires Valid()
      modifies this`timeLeft, this`isActive, this`targets
      ensures Valid()
      ensures old(EndedClean()) ==> EndedClean()
      ensures score == old(score) && scenario == old(scenario)
      ensures !old(isActive) ==> timeLeft == old(timeLeft) && !isActive && targets == old(targets)
      ensures old(isActive) ==> timeLeft == old(timeLeft) - 1
      ensures old(isActive) && timeLeft > 0 ==> isActive && targets == old(targets)
      ensures old(isActive) && timeLeft == 0 ==> !isActive && targets == []
    {
      if isActive && timeLeft > 0 {
        timeLeft := timeLeft - 1;
      }
      if isActive && timeLeft == 0 {
        isActive := false;
        targets := [];
      }
    }
  }

  /**
   * As written, starting any scenario from the selection menu shows no
   * targets: the spawn runs before the game area has been rendered.
   */
  method StartFromMenu(id: string, rect: Area, draws: seq<Draw>) returns (s: Session)
    requires Find(id).Some? && ValidDraws(draws, Find(id).value.targetCount)
    ensures s.Valid() && s.isActive && s.scenario == Some(id) && s.targets == []
  {
    s := new Session();
    s.StartScenario(id, rect, draws);
  }

  /**
   * A session started once its game area is rendered shows the scenario's
   * batch; a hit takes one target away and the respawn brings the batch
   * back, with one point scored.
   */
  method PlayOneHit(id: string, rect: Area, draws: seq<Draw>, redraws: seq<Draw>)
    returns (s: Session)
    requires Find(id).Some?
    requires ValidDraws(draws, Find(id).value.targetCount) && ValidDraws(redraws, Find(id).value.targetCount)
    ensures s.Valid() && s.EndedClean()
    ensures s.isActive && s.score == 1 && |s.targets| == Find(id).value.targetCount
  {
    s := new Session();
    s.StartScenarioAfterMount(id, rect, draws);
    CatalogEntriesAreLive(Find(id).value);
    var respawn := s.HandleTargetClick(s.targets[0].id);
    s.FireRespawnChecked(respawn.value, rect, redraws);
  }

  /**
   * As written, a hit in the session's last second whose respawn fires
   * after the countdown has ended puts a full batch of targets on the
   * ended session.
   */
  method RespawnAfterTimeUp(s: Session, targetId: int, rect: Area, draws: seq<Draw>)
    requires s.Valid() && s.isActive && s.timeLeft == 1
    requires ValidDraws(draws, Find(s.scenario.value).value.targetCount)
    modifies s
    ensures s.Valid() && !s.isActive && s.scenario == old(s.scenario)
    ensures |s.targets| == Find(s.scenario.value).value.targetCount >= 1
  {
    CatalogEntriesAreLive(Find(s.scenario.value).value);
    var respawn := s.HandleTargetClick(targetId);
    s.Tick();
    s.FireRespawn(respawn.value, rect, draws);
  }

  /** With the respawn reading the current `isActive`, the ended session stays empty. */
  method RespawnAfterTimeUpChecked(s: Session, targetId: int, rect: Area, draws: seq<Draw>)
    requires s.Valid() && s.isActive && s.timeLeft == 1
    requires ValidDraws(draws, Find(s.scenario.value).value.targetCount)
    modifies s
    ensures s.Valid() && s.EndedClean() && !s.isActive && s.targets == []
  {
    var respawn := s.HandleTargetClick(targetId);
    s.Tick();
    s.FireRespawnChecked(respawn.value, rect, draws);
  }

  /** A second `reset` changes nothing that the first one left. */
  method ResetTwice(s: Session)
    modifies s
    ensures s.Valid()
    ensures s.scenario == None && s.targets == [] && s.score == 0 && s.timeLeft == 0 && !s.isActive
  {
    s.Reset();
    ghost var once := (s.scenario, s.targets, s.score, s.timeLeft, s.isActive);
    s.Reset();
    assert (s.scenario, s.targets, s.score, s.timeLeft, s.isActive) == once;
  }
}
