/**
 * The `WPlaceBot` object of wplace-bot.js: its fields, the setters, colour
 * selection, the image loaders, and the `start`/`stop` placement loop.
 *
 * Effects on the page are recorded in a ghost trace of actions. A sleep is
 * the only point where other console code may run; the one such call the
 * model follows is `stop()`, chosen by a set `stops` of sleep numbers
 * (counted from 0 within one run) during which it lands.
 */
module WPlaceBot {
  import opened Common
  import opened Nearest
  import opened WPlaceImages

  /** What the bot does to the page, in order. */
  datatype Action =
    | Select(element: nat)  // `.click()` on the palette element chosen by `selectColor`
    | Click(x: int, y: int) // a call `clickCanvas(x, y)`
    | Sleep(ms: int)        // `await this.sleep(ms)`
    | Stopped               // `stop()` ran during the preceding sleep

  /** The pause between selecting a colour and clicking the canvas. */
  const SettleDelay: int := 200

  /** The constructor's delay between pixels, in milliseconds. */
  const DefaultDelay: int := 1000

  function StopIf(landed: bool): seq<Action>
  {
    if landed then [Stopped] else []
  }

  // ---------------------------------------------------------------------
  // The run, as a function of the state `start` reads

  /** What one run of `start` depends on. */
  datatype RunConfig = RunConfig(
    pixels: seq<Pixel>,
    palette: seq<PaletteEntry>,
    pick: string -> nat,
    startX: int,
    startY: int,
    delay: int,
    stops: set<nat>)

  /** The loop state: `isRunning`, `currentPixel`, sleeps so far, `selectedColor`, actions so far. */
  datatype RunState = RunState(running: bool, cursor: nat, sleeps: nat, selected: string, actions: seq<Action>)

  /** The state right after `isRunning = true; currentPixel = 0`. */
  function Begin(selected: string): RunState
  {
    RunState(true, 0, 0, selected, [])
  }

  /** The palette element `selectColor` clicks for a colour: the nearest one, when there is a palette. */
  function SelectedElement(palette: seq<PaletteEntry>, color: string): nat
  {
    match FindClosestColor(palette, color)
    case Some(entry) => entry.element
    case None => 0
  }

  /** The selection for pixel `k`, made through the configuration's `pick`. */
  function SelectOf(cfg: RunConfig, k: nat): Action
    requires k < |cfg.pixels|
  {
    Select(cfg.pick(cfg.pixels[k].color))
  }

  /** The canvas click for pixel `k`: its offsets added to the start position. */
  function ClickOf(cfg: RunConfig, k: nat): Action
    requires k < |cfg.pixels|
  {
    Click(cfg.startX + cfg.pixels[k].x, cfg.startY + cfg.pixels[k].y)
  }

  /**
   * The actions of a pass whose colour selection succeeded: the selection,
   * the settle pause, the click, the delay; a stop may land in either pause.
   */
  function PassActions(select: Action, click: Action, delay: int, stop1: bool, stop2: bool): seq<Action>
  {
    [select, Sleep(SettleDelay)] + StopIf(stop1) + [click, Sleep(delay)] + StopIf(stop2)
  }

  /** The actions of a pass whose colour selection failed: only the delay. */
  function IdleActions(delay: int, stop: bool): seq<Action>
  {
    [Sleep(delay)] + StopIf(stop)
  }

  /** One pass of the `while` body. */
  function Step(cfg: RunConfig, s: RunState): RunState
    requires s.cursor < |cfg.pixels|
  {
    var k := s.cursor;
    if |cfg.palette| > 0 then
      var stop1 := s.sleeps in cfg.stops;
      var stop2 := s.sleeps + 1 in cfg.stops;
      RunState(s.running && !stop1 && !stop2, k + 1, s.sleeps + 2, cfg.pixels[k].color,
        s.actions + PassActions(SelectOf(cfg, k), ClickOf(cfg, k), cfg.delay, stop1, stop2))
    else
      var stop := s.sleeps in cfg.stops;
      RunState(s.running && !stop, k + 1, s.sleeps + 1, s.selected,
        s.actions + IdleActions(cfg.delay, stop))
  }

  /** The `while` loop: iterate while running and pixels remain. */
  function Run(cfg: RunConfig, s: RunState): RunState
    requires s.cursor <= |cfg.pixels|
    decreases |cfg.pixels| - s.cursor
  {
    if s.running && s.cursor < |cfg.pixels| then Run(cfg, Step(cfg, s)) else s
  }

  // ---------------------------------------------------------------------
  // Reading the trace

  predicate IsPlacement(a: Action) { a.Select? || a.Click? }

  /** The selections and clicks of a trace, in order. */
  function Placements(actions: seq<Action>): (p: seq<Action>)
    ensures forall i :: 0 <= i < |p| ==> IsPlacement(p[i])
  {
    if actions == [] then []
    else (if IsPlacement(actions[0]) then [actions[0]] else []) + Placements(actions[1..])
  }

  lemma {:induction false} PlacementsAppend(a: seq<Action>, b: seq<Action>)
    ensures Placements(a + b) == Placements(a) + Placements(b)
  {
    if a == [] {
      assert a + b == b;
    } else {
      assert (a + b)[1..] == a[1..] + b;
      PlacementsAppend(a[1..], b);
    }
  }

  lemma PlacementsOne(a: Action)
    ensures Placements([a]) == if IsPlacement(a) then [a] else []
  {
    assert [a][1..] == [];
  }

  lemma PlacementsTwo(a: Action, b: Action)
    ensures Placements([a, b]) == Placements([a]) + Placements([b])
  {
    assert [a, b] == [a] + [b];
    PlacementsAppend([a], [b]);
  }

  /** What a trace holds after its first `Stopped`; empty when there is none. */
  function AfterStop(actions: seq<Action>): (t: seq<Action>)
    ensures |t| <= |actions|
  {
    if actions == [] then []
    else if actions[0] == Stopped then actions[1..]
    else AfterStop(actions[1..])
  }

  lemma {:induction false} AfterStopAppend(a: seq<Action>, b: seq<Action>)
    requires Stopped !in a
    ensures AfterStop(a + b) == AfterStop(b)
  {
    if a == [] {
      assert a + b == b;
    } else {
      assert (a + b)[0] == a[0];
      assert (a + b)[1..] == a[1..] + b;
      AfterStopAppend(a[1..], b);
    }
  }

  /** The selections and clicks a run makes over its first `n` pixels when every selection succeeds. */
  function Plan(cfg: RunConfig, n: nat): seq<Action>
    requires n <= |cfg.pixels|
  {
    if n == 0 || |cfg.palette| == 0 then []
    else Plan(cfg, n - 1) + [SelectOf(cfg, n - 1), ClickOf(cfg, n - 1)]
  }

  /** Pixel `k` contributes its selection at position 2k and its click at 2k + 1. */
  lemma {:induction false} PlanIndex(cfg: RunConfig, n: nat)
    requires n <= |cfg.pixels| && |cfg.palette| > 0
    ensures |Plan(cfg, n)| == 2 * n
    ensures forall k :: 0 <= k < n ==> Plan(cfg, n)[2 * k] == SelectOf(cfg, k)
    ensures forall k :: 0 <= k < n ==> Plan(cfg, n)[2 * k + 1] == ClickOf(cfg, k)
  {
    if n > 0 {
      PlanIndex(cfg, n - 1);
      var prev := Plan(cfg, n - 1);
      var plan := Plan(cfg, n);
      assert plan == prev + [SelectOf(cfg, n - 1), ClickOf(cfg, n - 1)];
      forall k | 0 <= k < n
        ensures plan[2 * k] == SelectOf(cfg, k) && plan[2 * k + 1] == ClickOf(cfg, k)
      {
        if k < n - 1 {
          assert plan[2 * k] == prev[2 * k] && plan[2 * k + 1] == prev[2 * k + 1];
        }
      }
    }
  }

  // ---------------------------------------------------------------------
  // Where the stops land

  /** The number of the first sleep of pixel `k`. */
  function FirstSleep(cfg: RunConfig, k: nat): nat
  {
    if |cfg.palette| > 0 then 2 * k else k
  }

  /** A `stop()` lands in one of the sleeps of pixel `k`. */
  predicate StopDuring(cfg: RunConfig, k: nat)
  {
    FirstSleep(cfg, k) in cfg.stops || (|cfg.palette| > 0 && FirstSleep(cfg, k) + 1 in cfg.stops)
  }

  /** Selections and clicks after the first `Stopped` of a run ending at cursor `n`: none, or the click of pixel n - 1. */
  predicate QuietAfterStop(cfg: RunConfig, n: nat, actions: seq<Action>)
    requires n <= |cfg.pixels|
  {
    Placements(AfterStop(actions)) == [] ||
    (n > 0 && Placements(AfterStop(actions)) == [ClickOf(cfg, n - 1)])
  }

  /** The state of the loop before a pass in which no stop has landed yet. */
  predicate Undisturbed(cfg: RunConfig, s: RunState, selected: string)
  {
    && s.running
    && s.cursor <= |cfg.pixels|
    && s.sleeps == FirstSleep(cfg, s.cursor)
    && (forall k :: 0 <= k < s.cursor ==> !StopDuring(cfg, k))
    && Stopped !in s.actions
    && Placements(s.actions) == Plan(cfg, s.cursor)
    && s.selected == (if |cfg.palette| > 0 && s.cursor > 0 then cfg.pixels[s.cursor - 1].color else selected)
  }

  /** How a run that left an undisturbed state ends. */
  predicate Finished(cfg: RunConfig, from: nat, fin: RunState, selected: string)
  {
    && from < fin.cursor <= |cfg.pixels|
    && fin.sleeps == FirstSleep(cfg, fin.cursor)
    && (forall k :: 0 <= k < fin.cursor - 1 ==> !StopDuring(cfg, k))
    && fin.running == !StopDuring(cfg, fin.cursor - 1)
    && (fin.running ==> fin.cursor == |cfg.pixels| && Stopped !in fin.actions)
    && Placements(fin.actions) == Plan(cfg, fin.cursor)
    && QuietAfterStop(cfg, fin.cursor, fin.actions)
    && fin.selected == (if |cfg.palette| > 0 then cfg.pixels[fin.cursor - 1].color else selected)
  }

  /** One pass moves the cursor by one and uses one sleep per pause; a stop in either clears `running`. */
  lemma StepCounters(cfg: RunConfig, s: RunState, selected: string)
    requires s.cursor < |cfg.pixels| && s.running && s.sleeps == FirstSleep(cfg, s.cursor)
    ensures Step(cfg, s).cursor == s.cursor + 1
    ensures Step(cfg, s).sleeps == FirstSleep(cfg, s.cursor + 1)
    ensures Step(cfg, s).running == !StopDuring(cfg, s.cursor)
    ensures Step(cfg, s).selected == (if |cfg.palette| > 0 then cfg.pixels[s.cursor].color else s.selected)
  {
  }

  /** One pass adds the pixel's selection and click, or nothing when the palette is empty. */
  lemma StepPlacements(cfg: RunConfig, s: RunState)
    requires s.cursor < |cfg.pixels|
    ensures Placements(Step(cfg, s).actions) == Placements(s.actions) +
      (if |cfg.palette| > 0 then [SelectOf(cfg, s.cursor), ClickOf(cfg, s.cursor)] else [])
  {
    var k := s.cursor;
    if |cfg.palette| > 0 {
      var seg := PassActions(SelectOf(cfg, k), ClickOf(cfg, k), cfg.delay, s.sleeps in cfg.stops, s.sleeps + 1 in cfg.stops);
      PlacementsAppend(s.actions, seg);
      PassPlacements(SelectOf(cfg, k), ClickOf(cfg, k), cfg.delay, s.sleeps in cfg.stops, s.sleeps + 1 in cfg.stops);
    } else {
      PlacementsAppend(s.actions, IdleActions(cfg.delay, s.sleeps in cfg.stops));
      IdlePlacements(cfg.delay, s.sleeps in cfg.stops);
    }
  }

  /** A pass with a selection places exactly that selection and the click. */
  lemma PassPlacements(select: Action, click: Action, delay: int, stop1: bool, stop2: bool)
    requires IsPlacement(select) && IsPlacement(click)
    ensures Placements(PassActions(select, click, delay, stop1, stop2)) == [select, click]
  {
    var a1 := [select, Sleep(SettleDelay)];
    var a2 := a1 + StopIf(stop1);
    var a3 := a2 + [click, Sleep(delay)];
    assert Placements(a1) == [select] by {
      PairPlacements(select, Sleep(SettleDelay));
    }
    assert Placements(a2) == [select] by {
      PlacementsAppend(a1, StopIf(stop1));
      StopIfPlacements(stop1);
    }
    assert Placements(a3) == [select, click] by {
      PlacementsAppend(a2, [click, Sleep(delay)]);
      PairPlacements(click, Sleep(delay));
    }
    PlacementsAppend(a3, StopIf(stop2));
    StopIfPlacements(stop2);
  }

  /** A placement followed by a sleep places the placement. */
  lemma PairPlacements(a: Action, b: Action)
    requires IsPlacement(a) && b.Sleep?
    ensures Placements([a, b]) == [a]
  {
    PlacementsTwo(a, b);
    PlacementsOne(a);
    PlacementsOne(b);
  }

  lemma StopIfPlacements(landed: bool)
    ensures Placements(StopIf(landed)) == []
  {
    PlacementsOne(Stopped);
  }

  /** A pass without a selection places nothing. */
  lemma IdlePlacements(delay: int, stop: bool)
    ensures Placements(IdleActions(delay, stop)) == []
  {
    PlacementsOne(Stopped);
    PlacementsOne(Sleep(delay));
    PlacementsAppend([Sleep(delay)], StopIf(stop));
  }

  /**
   * A pass that starts with no `Stopped` in the trace adds none unless a
   * stop lands, and after the first one at most its own click follows.
   */
  lemma StepAfterStop(cfg: RunConfig, s: RunState)
    requires s.cursor < |cfg.pixels| && Stopped !in s.actions
    requires s.sleeps == FirstSleep(cfg, s.cursor)
    ensures !StopDuring(cfg, s.cursor) ==> Stopped !in Step(cfg, s).actions
    ensures QuietAfterStop(cfg, s.cursor + 1, Step(cfg, s).actions)
  {
    var k := s.cursor;
    var stop1, stop2 := s.sleeps in cfg.stops, s.sleeps + 1 in cfg.stops;
    assert !StopDuring(cfg, k) ==> !stop1 && (|cfg.palette| > 0 ==> !stop2);
    if |cfg.palette| > 0 {
      var seg := PassActions(SelectOf(cfg, k), ClickOf(cfg, k), cfg.delay, stop1, stop2);
      assert Step(cfg, s).actions == s.actions + seg;
      PassQuiet(cfg, k, s.actions, SelectOf(cfg, k), cfg.delay, stop1, stop2);
    } else {
      assert Step(cfg, s).actions == s.actions + IdleActions(cfg.delay, stop1);
      IdleQuiet(cfg, k + 1, s.actions, cfg.delay, stop1);
    }
  }

  /** A trace without `Stopped` followed by a pass with a selection for pixel `k`. */
  lemma PassQuiet(cfg: RunConfig, k: nat, before: seq<Action>, select: Action, delay: int, stop1: bool, stop2: bool)
    requires k < |cfg.pixels| && Stopped !in before && select.Select?
    ensures !stop1 && !stop2 ==> Stopped !in before + PassActions(select, ClickOf(cfg, k), delay, stop1, stop2)
    ensures QuietAfterStop(cfg, k + 1, before + PassActions(select, ClickOf(cfg, k), delay, stop1, stop2))
  {
    var seg := PassActions(select, ClickOf(cfg, k), delay, stop1, stop2);
    PassAfterStop(select, ClickOf(cfg, k), delay, stop1, stop2);
    AfterStopAppend(before, seg);
  }

  /** A trace without `Stopped` followed by a pass without a selection. */
  lemma IdleQuiet(cfg: RunConfig, n: nat, before: seq<Action>, delay: int, stop: bool)
    requires n <= |cfg.pixels| && Stopped !in before
    ensures !stop ==> Stopped !in before + IdleActions(delay, stop)
    ensures QuietAfterStop(cfg, n, before + IdleActions(delay, stop))
  {
    IdleAfterStop(delay, stop);
    AfterStopAppend(before, IdleActions(delay, stop));
  }

  /** After the first stop of a pass with a selection, only the click of that pass can follow. */
  lemma PassAfterStop(select: Action, click: Action, delay: int, stop1: bool, stop2: bool)
    requires select.Select? && click.Click?
    ensures !stop1 && !stop2 ==> Stopped !in PassActions(select, click, delay, stop1, stop2)
    ensures Placements(AfterStop(PassActions(select, click, delay, stop1, stop2))) == (if stop1 then [click] else [])
  {
    var head := [select, Sleep(SettleDelay)];
    var mid := [click, Sleep(delay)];
    var seg := PassActions(select, click, delay, stop1, stop2);
    if stop1 {
      assert seg == head + ([Stopped] + (mid + StopIf(stop2)));
      AfterStopAppend(head, [Stopped] + (mid + StopIf(stop2)));
      assert AfterStop([Stopped] + (mid + StopIf(stop2))) == mid + StopIf(stop2);
      PlacementsAppend(mid, StopIf(stop2));
      PlacementsOne(Stopped);
      PlacementsTwo(click, Sleep(delay));
      PlacementsOne(click);
      PlacementsOne(Sleep(delay));
      assert Placements(StopIf(stop2)) == [];
    } else if stop2 {
      assert seg == (head + mid) + [Stopped];
      AfterStopAppend(head + mid, [Stopped]);
      assert AfterStop([Stopped]) == [];
    } else {
      assert seg == head + mid + [];
      assert Stopped !in head + mid;
      AfterStopAppend(head + mid, []);
    }
  }

  /** A pass without a selection leaves nothing after its stop. */
  lemma IdleAfterStop(delay: int, stop: bool)
    ensures !stop ==> Stopped !in IdleActions(delay, stop)
    ensures AfterStop(IdleActions(delay, stop)) == []
  {
    if stop {
      AfterStopAppend([Sleep(delay)], [Stopped]);
      assert AfterStop([Stopped]) == [];
    } else {
      assert IdleActions(delay, stop) == [Sleep(delay)] + [];
      AfterStopAppend([Sleep(delay)], []);
    }
  }

  /**
   * The state after one pass from an undisturbed state, described by what
   * the step lemmas say of it, is again undisturbed or already finished.
   */
  lemma Advance(cfg: RunConfig, s: RunState, n: RunState, selected: string)
    requires Undisturbed(cfg, s, selected) && s.cursor < |cfg.pixels|
    requires n.cursor == s.cursor + 1 && n.sleeps == FirstSleep(cfg, s.cursor + 1)
    requires n.running == !StopDuring(cfg, s.cursor)
    requires n.selected == (if |cfg.palette| > 0 then cfg.pixels[s.cursor].color else s.selected)
    requires Placements(n.actions) == Placements(s.actions) +
      (if |cfg.palette| > 0 then [SelectOf(cfg, s.cursor), ClickOf(cfg, s.cursor)] else [])
    requires !StopDuring(cfg, s.cursor) ==> Stopped !in n.actions
    requires QuietAfterStop(cfg, s.cursor + 1, n.actions)
    ensures n.running && n.cursor < |cfg.pixels| ==> Undisturbed(cfg, n, selected)
    ensures !(n.running && n.cursor < |cfg.pixels|) ==> Finished(cfg, s.cursor, n, selected)
  {
    assert Placements(n.actions) == Plan(cfg, n.cursor);
  }

  /** From an undisturbed state with pixels left, the run ends as `Finished` says. */
  lemma {:induction false} RunSpec(cfg: RunConfig, s: RunState, selected: string)
    requires Undisturbed(cfg, s, selected) && s.cursor < |cfg.pixels|
    ensures Finished(cfg, s.cursor, Run(cfg, s), selected)
    decreases |cfg.pixels| - s.cursor
  {
    var n := Step(cfg, s);
    StepCounters(cfg, s, selected);
    StepPlacements(cfg, s);
    StepAfterStop(cfg, s);
    Advance(cfg, s, n, selected);
    assert Run(cfg, s) == Run(cfg, n);
    if n.running && n.cursor < |cfg.pixels| {
      RunSpec(cfg, n, selected);
    }
  }

  /**
   * What a run of `start` on a loaded image does: the cursor visits pixels
   * 0, 1, ... without skipping; the run ends after the last pixel, or after
   * the pixel during whose sleeps the first `stop()` landed; every visited
   * pixel gets its selection and then its click at the offset position when
   * the palette is non-empty, and none when it is empty; after a stop at
   * most the pending click of the current pixel follows.
   */
  lemma RunOfStart(cfg: RunConfig, selected: string)
    requires |cfg.pixels| > 0
    ensures Finished(cfg, 0, Run(cfg, Begin(selected)), selected)
  {
    RunSpec(cfg, Begin(selected), selected);
  }

  /** A run in which no stop lands visits every pixel. */
  lemma RunWithoutStop(cfg: RunConfig, selected: string)
    requires |cfg.pixels| > 0
    requires forall k :: 0 <= k < |cfg.pixels| ==> !StopDuring(cfg, k)
    ensures Run(cfg, Begin(selected)).cursor == |cfg.pixels|
    ensures Placements(Run(cfg, Begin(selected)).actions) == Plan(cfg, |cfg.pixels|)
  {
    RunOfStart(cfg, selected);
  }

  /** A stop that lands during pixel `k` ends the run by pixel `k`. */
  lemma StopEndsRun(cfg: RunConfig, selected: string, k: nat)
    requires k < |cfg.pixels| && StopDuring(cfg, k)
    ensures Run(cfg, Begin(selected)).cursor <= k + 1
  {
    RunOfStart(cfg, selected);
  }

  /**
   * A row-major grid image drawn with a non-empty palette and no stop: pixel
   * k is selected then clicked at the start position plus (k mod w, k div w).
   */
  lemma GridRun(cfg: RunConfig, w: nat, selected: string)
    requires w > 0 && |cfg.pixels| > 0 && |cfg.palette| > 0 && cfg.stops == {}
    requires forall k :: 0 <= k < |cfg.pixels| ==> cfg.pixels[k].x == k % w && cfg.pixels[k].y == k / w
    ensures var p := Placements(Run(cfg, Begin(selected)).actions);
      && |p| == 2 * |cfg.pixels|
      && forall k :: 0 <= k < |cfg.pixels| ==>
           p[2 * k] == SelectOf(cfg, k) && p[2 * k + 1] == Click(cfg.startX + k % w, cfg.startY + k / w)
  {
    RunWithoutStop(cfg, selected);
    PlanIndex(cfg, |cfg.pixels|);
    var p := Placements(Run(cfg, Begin(selected)).actions);
    assert p == Plan(cfg, |cfg.pixels|);
    forall k | 0 <= k < |cfg.pixels|
      ensures p[2 * k] == SelectOf(cfg, k) && p[2 * k + 1] == Click(cfg.startX + k % w, cfg.startY + k / w)
    {
      assert p[2 * k + 1] == ClickOf(cfg, k);
    }
  }

  /**
   * The heart preset drawn from (10, 20) with a non-empty palette and no
   * stop: 49 selections and 49 clicks, the k-th click at
   * (10 + k mod 7, 20 + k div 7), from (10, 20) to (16, 26).
   */
  lemma HeartRun(cfg: RunConfig, selected: string)
    requires cfg.pixels == SimpleImage(HeartColors(), 7, 7)
    requires |cfg.palette| > 0 && cfg.startX == 10 && cfg.startY == 20 && cfg.stops == {}
    ensures var p := Placements(Run(cfg, Begin(selected)).actions);
      && |p| == 98
      && (forall k :: 0 <= k < 49 ==> p[2 * k] == SelectOf(cfg, k) && p[2 * k + 1] == Click(10 + k % 7, 20 + k / 7))
      && p[1] == Click(10, 20)
      && p[97] == Click(16, 26)
  {
    HeartGrid();
    SevenBySevenRun(cfg, selected);
  }

  /** The same for any 49 pixels laid out row-major on a 7-wide grid. */
  lemma SevenBySevenRun(cfg: RunConfig, selected: string)
    requires |cfg.pixels| == 49
    requires forall k :: 0 <= k < 49 ==> cfg.pixels[k].x == k % 7 && cfg.pixels[k].y == k / 7
    requires |cfg.palette| > 0 && cfg.startX == 10 && cfg.startY == 20 && cfg.stops == {}
    ensures var p := Placements(Run(cfg, Begin(selected)).actions);
      && |p| == 98
      && (forall k :: 0 <= k < 49 ==> p[2 * k] == SelectOf(cfg, k) && p[2 * k + 1] == Click(10 + k % 7, 20 + k / 7))
      && p[1] == Click(10, 20)
      && p[97] == Click(16, 26)
  {
    GridRun(cfg, 7, selected);
    var p := Placements(Run(cfg, Begin(selected)).actions);
    assert p[2 * 0 + 1] == Click(10 + 0 % 7, 20 + 0 / 7);
    assert p[2 * 48 + 1] == Click(10 + 48 % 7, 20 + 48 / 7);
  }

  // ---------------------------------------------------------------------
  // The bot object

  class Bot {
    var isRunning: bool
    var delay: int
    var currentPixel: nat
    var pixels: seq<Pixel>
    var startX: int
    var startY: int
    var colorPalette: seq<PaletteEntry>
    var selectedColor: string
    ghost var trace: seq<Action>

    /** The constructor's defaults, with the palette the page lookup found. */
    constructor(palette: seq<PaletteEntry>)
      ensures !isRunning && delay == DefaultDelay && currentPixel == 0 && pixels == []
      ensures startX == 0 && startY == 0 && colorPalette == palette && selectedColor == "#000000"
      ensures trace == []
    {
      isRunning := false;
      delay := DefaultDelay;
      currentPixel := 0;
      pixels := [];
      startX := 0;
      startY := 0;
      colorPalette := palette;
      selectedColor := "#000000";
      trace := [];
    }

    /** What a run started now depends on, given where the stops land. */
    function Config(stops: set<nat>): RunConfig
      reads this`pixels, this`colorPalette, this`startX, this`startY, this`delay
    {
      var palette := colorPalette;
      RunConfig(pixels, palette, c => SelectedElement(palette, c), startX, startY, delay, stops)
    }

    method SetStartPosition(x: int, y: int)
      modifies this`startX, this`startY
      ensures startX == x && startY == y
    {
      startX := x;
      startY := y;
    }

    method SetDelay(ms: int)
      modifies this`delay
      ensures delay == ms
    {
      delay := ms;
    }

    method Stop()
      modifies this`isRunning, this`trace
      ensures !isRunning && trace == old(trace) + [Stopped]
    {
      isRunning := false;
      trace := trace + [Stopped];
    }

    /** `selectColor`: click the nearest palette element and remember the requested colour. */
    method SelectColor(color: string) returns (ok: bool)
      modifies this`selectedColor, this`trace
      ensures ok <==> |colorPalette| > 0
      ensures ok ==>
        && selectedColor == color
        && trace == old(trace) + [Select(FindClosestColor(colorPalette, color).value.element)]
      ensures !ok ==> selectedColor == old(selectedColor) && trace == old(trace)
    {
      var closest := FindClosestColor(colorPalette, color);
      if closest.Some? {
        trace := trace + [Select(closest.value.element)];
        selectedColor := color;
        ok := true;
      } else {
        ok := false;
      }
    }

    /** `clickCanvas(x, y)`: the call is recorded; the event dispatch is outside the model. */
    method ClickCanvas(x: int, y: int)
      modifies this`trace
      ensures trace == old(trace) + [Click(x, y)]
    {
      trace := trace + [Click(x, y)];
    }

    /** `await this.sleep(ms)`, during which `stop()` runs when `stopLands`. */
    method Pause(ms: int, stopLands: bool)
      modifies this`isRunning, this`trace
      ensures trace == old(trace) + [Sleep(ms)] + StopIf(stopLands)
      ensures isRunning == (old(isRunning) && !stopLands)
    {
      trace := trace + [Sleep(ms)];
      if stopLands {
        Stop();
      }
    }

    /** `loadSimpleImage`: cell `y * width + x` of the grid, for each index `data` covers. */
    method LoadSimpleImage(data: seq<string>, width: int, height: int)
      modifies this`pixels
      ensures pixels == SimpleImage(data, width, height)
    {
      pixels := [];
      var y := 0;
      while y < height
        invariant 0 <= y && (height > 0 ==> y <= height) && (height <= 0 ==> y == 0)
        invariant pixels == Covered(data, width, y * width)
      {
        var x := 0;
        while x < width
          invariant 0 <= x && (width > 0 ==> x <= width)
          invariant pixels == Covered(data, width, y * width + x)
        {
          var index := y * width + x;
          RowMajorIndex(y, x, width);
          CoveredStep(data, width, index);
          if index < |data| {
            pixels := pixels + [Pixel(x, y, data[index])];
          }
          x := x + 1;
        }
        assert y * width + width == (y + 1) * width;
        y := y + 1;
      }
      CoveredAll(data, width, height, y);
    }

    method LoadHeartImage()
      modifies this`pixels
      ensures pixels == SimpleImage(HeartColors(), 7, 7)
    {
      LoadSimpleImage(HeartColors(), 7, 7);
    }

    method LoadSmileyImage()
      modifies this`pixels
      ensures pixels == SimpleImage(SmileyColors(), 7, 7)
    {
      LoadSimpleImage(SmileyColors(), 7, 7);
    }

    /**
     * `loadImageFromData`: a non-array is refused, the entries are checked
     * left to right, and only a fully valid array replaces `pixels`.
     */
    method LoadImageFromData(input: JsInput) returns (outcome: LoadOutcome)
      modifies this`pixels
      ensures outcome == (if input.NotAnArray? then Rejected else Validate(input.entries))
      ensures outcome == Loaded ==> input.JsArray? && pixels == ToPixels(input.entries)
      ensures outcome != Loaded ==> pixels == old(pixels)
    {
      if input.NotAnArray? {
        return Rejected;
      }
      outcome := Validate(input.entries);
      if outcome == Loaded {
        ValidateSpec(input.entries);
        pixels := ToPixels(input.entries);
      }
    }

    /**
     * `loadImageFromUrl` from the decoded RGBA buffer: rasterise, then load
     * the result. A scaled width or height of 0 makes `getImageData` throw,
     * which rejects the promise and leaves `pixels` as it was.
     */
    method LoadImageFromUrl(width: nat, height: nat, data: seq<Byte>) returns (outcome: LoadOutcome)
      requires |data| == width * height * 4
      modifies this`pixels
      ensures outcome == Loaded <==> width > 0 && height > 0
      ensures outcome != Loaded ==> outcome == ThrewIndexSizeError && pixels == old(pixels)
      ensures outcome == Loaded ==> pixels == RasterPixels(width, height, data)
    {
      if width == 0 || height == 0 {
        return ThrewIndexSizeError;
      }
      var px := ProcessImageToPixels(width, height, data);
      FromPixelsRoundTrip(px);
      outcome := LoadImageFromData(JsArray(FromPixels(px)));
    }

    /**
     * `start`: refuse when already running or when nothing is loaded;
     * otherwise run the loop, whose whole effect is `Run`, then clear
     * `isRunning`.
     */
    method Start(stops: set<nat>)
      modifies this`isRunning, this`currentPixel, this`selectedColor, this`trace
      ensures old(isRunning) || |pixels| == 0 ==>
        && isRunning == old(isRunning)
        && currentPixel == old(currentPixel)
        && selectedColor == old(selectedColor)
        && trace == old(trace)
      ensures !old(isRunning) && |pixels| > 0 ==>
        var fin := Run(Config(stops), Begin(old(selectedColor)));
        && !isRunning
        && currentPixel == fin.cursor
        && selectedColor == fin.selected
        && trace == old(trace) + fin.actions
    {
      if isRunning {
        return;
      }
      if |pixels| == 0 {
        return;
      }
      isRunning := true;
      currentPixel := 0;
      ghost var cfg := Config(stops);
      ghost var init := Begin(selectedColor);
      var sleeps := 0; // sleeps so far in this run, to consult `stops`
      ghost var actions: seq<Action> := [];
      while isRunning && currentPixel < |pixels|
        invariant currentPixel <= |pixels|
        invariant cfg == Config(stops)
        invariant trace == old(trace) + actions
        invariant Run(cfg, RunState(isRunning, currentPixel, sleeps, selectedColor, actions)) == Run(cfg, init)
        decreases |pixels| - currentPixel
      {
        ghost var before := RunState(isRunning, currentPixel, sleeps, selectedColor, actions);
        ghost var prior := trace;
        var used := Pass(cfg, stops, sleeps);
        ghost var next := Step(cfg, before);
        StepFrom(cfg, before);
        RunStep(cfg, before);
        AppendAssoc(old(trace), actions, next.actions[|actions|..]);
        actions := next.actions;
        sleeps := sleeps + used;
        assert RunState(isRunning, currentPixel, sleeps, selectedColor, actions) == next;
      }
      isRunning := false;
    }

    /**
     * One pass of the loop body of `start` for pixel `currentPixel`: select
     * its colour; when that succeeds, pause, click the canvas at the offset
     * position, advance and pause for the delay; otherwise advance and
     * pause for the delay. Returns the number of pauses.
     */
    method Pass(ghost cfg: RunConfig, stops: set<nat>, sleeps: nat) returns (used: nat)
      requires cfg == Config(stops) && currentPixel < |pixels|
      modifies this`isRunning, this`currentPixel, this`selectedColor, this`trace
      ensures var next := Step(cfg, RunState(old(isRunning), old(currentPixel), sleeps, old(selectedColor), []));
        && isRunning == next.running
        && currentPixel == next.cursor
        && selectedColor == next.selected
        && sleeps + used == next.sleeps
        && trace == old(trace) + next.actions
    {
      ghost var s := RunState(isRunning, currentPixel, sleeps, selectedColor, []);
      var pixel := pixels[currentPixel];
      var x := startX + pixel.x;
      var y := startY + pixel.y;
      var ok := SelectColor(pixel.color);
      if ok {
        ghost var select := Select(FindClosestColor(colorPalette, pixel.color).value.element);
        assert select == SelectOf(cfg, s.cursor);
        ghost var stop1, stop2 := sleeps in stops, sleeps + 1 in stops;
        assert Click(x, y) == ClickOf(cfg, s.cursor);
        assert trace == old(trace) + [select];
        Pause(SettleDelay, sleeps in stops);
        assert trace == old(trace) + [select] + [Sleep(SettleDelay)] + StopIf(stop1);
        ClickCanvas(x, y);
        assert trace == old(trace) + [select] + [Sleep(SettleDelay)] + StopIf(stop1) + [Click(x, y)];
        currentPixel := currentPixel + 1;
        Pause(delay, sleeps + 1 in stops);
        assert trace == old(trace) + [select] + [Sleep(SettleDelay)] + StopIf(stop1) + [Click(x, y)] + [Sleep(delay)] + StopIf(stop2);
        PassTrace(old(trace), select, Click(x, y), delay, stop1, stop2);
        StepPass(cfg, s, isRunning, selectedColor);
        used := 2;
      } else {
        currentPixel := currentPixel + 1;
        Pause(delay, sleeps in stops);
        IdleTrace(old(trace), delay, sleeps in stops);
        StepIdle(cfg, s, isRunning);
        used := 1;
      }
    }
  }

  /** A pass of the loop does not change where the run ends. */
  lemma RunStep(cfg: RunConfig, s: RunState)
    requires s.running && s.cursor < |cfg.pixels|
    ensures Run(cfg, Step(cfg, s)) == Run(cfg, s)
  {
  }

  /** The state after a pass: a pass appends to the actions and reads nothing else of them. */
  lemma StepFrom(cfg: RunConfig, s: RunState)
    requires s.cursor < |cfg.pixels|
    ensures var t := Step(cfg, s.(actions := []));
      var n := Step(cfg, s);
      && |s.actions| <= |n.actions|
      && n == t.(actions := s.actions + t.actions)
      && n.actions[|s.actions|..] == t.actions
  {
  }


  /** The loop state after a pass with a selection is the next state of `Run`. */
  lemma StepPass(cfg: RunConfig, s: RunState, running: bool, selected: string)
    requires s.cursor < |cfg.pixels| && |cfg.palette| > 0 && s.actions == []
    requires running == (s.running && s.sleeps !in cfg.stops && s.sleeps + 1 !in cfg.stops)
    requires selected == cfg.pixels[s.cursor].color
    ensures Step(cfg, s) == RunState(running, s.cursor + 1, s.sleeps + 2, selected,
      PassActions(SelectOf(cfg, s.cursor), ClickOf(cfg, s.cursor), cfg.delay, s.sleeps in cfg.stops, s.sleeps + 1 in cfg.stops))
  {
  }

  /** The loop state after a pass without a selection is the next state of `Run`. */
  lemma StepIdle(cfg: RunConfig, s: RunState, running: bool)
    requires s.cursor < |cfg.pixels| && |cfg.palette| == 0 && s.actions == []
    requires running == (s.running && s.sleeps !in cfg.stops)
    ensures Step(cfg, s) == RunState(running, s.cursor + 1, s.sleeps + 1, s.selected, IdleActions(cfg.delay, s.sleeps in cfg.stops))
  {
  }

  /** The trace after the calls of a pass with a selection, grouped as that pass's actions. */
  lemma PassTrace(prior: seq<Action>, select: Action, click: Action, delay: int, stop1: bool, stop2: bool)
    ensures prior + [select] + [Sleep(SettleDelay)] + StopIf(stop1) + [click] + [Sleep(delay)] + StopIf(stop2)
      == prior + PassActions(select, click, delay, stop1, stop2)
  {
  }

  /** The trace after the pause of a pass without a selection. */
  lemma IdleTrace(prior: seq<Action>, delay: int, stop: bool)
    ensures prior + [Sleep(delay)] + StopIf(stop) == prior + IdleActions(delay, stop)
  {
  }

  /** The cells `loadSimpleImage` has produced once its index reaches `n`. */
  function Covered(data: seq<string>, width: int, n: int): (px: seq<Pixel>)
    ensures |px| <= |data|
  {
    if width <= 0 || n <= 0 then [] else GridPrefix(data, width, Min(n, |data|))
  }

  /** One more index: a cell when `data` covers it, nothing otherwise. */
  lemma CoveredStep(data: seq<string>, width: int, n: nat)
    requires width > 0
    ensures Covered(data, width, n + 1) ==
      Covered(data, width, n) + (if n < |data| then [Pixel(n % width, n / width, data[n])] else [])
  {
    if n < |data| {
      assert GridPrefix(data, width, n + 1) == GridPrefix(data, width, n) + [Pixel(n % width, n / width, data[n])];
    }
  }

  /** After the last row the covered cells are the whole image. */
  lemma CoveredAll(data: seq<string>, width: int, height: int, y: int)
    requires 0 <= y && (height > 0 ==> y == height) && (height <= 0 ==> y == 0)
    ensures Covered(data, width, y * width) == SimpleImage(data, width, height)
  {
    if height > 0 && width > 0 {
      assert y * width == width * height;
    }
  }
}
