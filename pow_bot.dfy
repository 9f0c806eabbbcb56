/**
 * The `WPlaceBot` object of pow.js: its fields, the setters, the image
 * loaders, and the `start`/`stop` drawing loop over `imageData`.
 *
 * Effects on the page are recorded in a ghost trace of actions. The canvas
 * read in `start` is a function from coordinates to a colour. A sleep is the
 * only point where other console code may run; the one such call the model
 * follows is `stop()`, chosen by a set `stops` of sleep numbers (counted
 * from 0 within one run) during which it lands.
 */
module PowBot {
  import opened Common
  import opened Nearest
  import opened PowImages

  /** What the bot does to the page, in order. */
  datatype PowAction =
    | Draw(x: int, y: int, index: nat) // a call `drawPixel(x, y, colorIndex)`
    | Sleep(ms: int)                   // `await this.sleep(delay)`
    | Stopped                          // `stop()` ran during the preceding sleep

  /** The constructor's delay, in milliseconds. */
  const DefaultDelay: int := 10

  function StopIf(landed: bool): seq<PowAction>
  {
    if landed then [Stopped] else []
  }

  // ---------------------------------------------------------------------
  // The run, as a function of what `start` reads

  /**
   * What one run of `start` depends on: the image and palette, the start
   * position and delay read from the control panel, the canvas contents,
   * and the sleeps during which `stop()` lands.
   */
  datatype PowConfig = PowConfig(
    image: Image,
    palette: seq<string>,
    startX: int,
    startY: int,
    delay: int,
    probe: (int, int) -> Rgb,
    stops: set<nat>)

  /** The loop state: `running`, sleeps so far, actions so far. */
  datatype Progress = Progress(running: bool, sleeps: nat, actions: seq<PowAction>)

  /** Entry `x` of row `y` of the image. */
  datatype Cell = Cell(y: nat, x: nat)

  predicate InImage(image: Image, c: Cell)
  {
    c.y < |image| && c.x < |image[c.y]|
  }

  /** Row-major order: earlier row, or same row and earlier column. */
  predicate Before(a: Cell, b: Cell)
  {
    a.y < b.y || (a.y == b.y && a.x < b.x)
  }

  /** The entry is opaque and the canvas does not already show its colour. */
  predicate NeedsDraw(cfg: PowConfig, c: Cell)
    requires InImage(cfg.image, c)
  {
    var e := cfg.image[c.y][c.x];
    e.a != 0 && cfg.probe(cfg.startX + c.x, cfg.startY + c.y) != Rgb(e.r, e.g, e.b)
  }

  /** The draw for an entry: the nearest palette index, at the offset position. */
  function DrawOf(cfg: PowConfig, c: Cell): PowAction
    requires InImage(cfg.image, c)
  {
    var e := cfg.image[c.y][c.x];
    Draw(cfg.startX + c.x, cfg.startY + c.y, GetClosestColor(cfg.palette, e.r, e.g, e.b))
  }

  /** The body of the inner loop for a running bot, after the cancellation check. */
  function Visit(cfg: PowConfig, c: Cell, s: Progress): Progress
    requires InImage(cfg.image, c)
  {
    if NeedsDraw(cfg, c) then
      var stop := s.sleeps in cfg.stops;
      Progress(!stop, s.sleeps + 1, s.actions + [DrawOf(cfg, c), Sleep(cfg.delay)] + StopIf(stop))
    else
      s
  }

  /** The nested loops from row `y`, column `x` on; they end early once `running` is false. */
  function Walk(cfg: PowConfig, y: nat, x: nat, s: Progress): Progress
    decreases |cfg.image| - y, if y < |cfg.image| then |cfg.image[y]| - x else 0
  {
    if y >= |cfg.image| then s
    else if x >= |cfg.image[y]| then Walk(cfg, y + 1, 0, s)
    else if !s.running then s
    else Walk(cfg, y, x + 1, Visit(cfg, Cell(y, x), s))
  }

  // ---------------------------------------------------------------------
  // What an undisturbed run draws

  /**
   * The entries from row `y`, column `x` on that need drawing, in the
   * order the loops reach them: each is opaque and differs from the canvas,
   * and they are strictly increasing in row-major order.
   */
  function Targets(cfg: PowConfig, y: nat, x: nat): (t: seq<Cell>)
    ensures forall i :: 0 <= i < |t| ==> InImage(cfg.image, t[i]) && NeedsDraw(cfg, t[i]) && !Before(t[i], Cell(y, x))
    ensures forall i, j :: 0 <= i < j < |t| ==> Before(t[i], t[j])
    decreases |cfg.image| - y, if y < |cfg.image| then |cfg.image[y]| - x else 0
  {
    if y >= |cfg.image| then []
    else if x >= |cfg.image[y]| then Targets(cfg, y + 1, 0)
    else (if NeedsDraw(cfg, Cell(y, x)) then [Cell(y, x)] else []) + Targets(cfg, y, x + 1)
  }

  /** No entry that needs drawing is missing from `Targets`. */
  lemma {:induction false} TargetsComplete(cfg: PowConfig, y: nat, x: nat, c: Cell)
    requires InImage(cfg.image, c) && NeedsDraw(cfg, c) && !Before(c, Cell(y, x))
    ensures c in Targets(cfg, y, x)
    decreases |cfg.image| - y, if y < |cfg.image| then |cfg.image[y]| - x else 0
  {
    if x >= |cfg.image[y]| {
      TargetsComplete(cfg, y + 1, 0, c);
    } else if c != Cell(y, x) {
      TargetsComplete(cfg, y, x + 1, c);
    }
  }

  /** At most the opaque entries need drawing. */
  lemma {:induction false} TargetsOpaque(cfg: PowConfig, y: nat, x: nat)
    ensures |Targets(cfg, y, x)| <= OpaqueFrom(cfg.image, y, x)
    decreases |cfg.image| - y, if y < |cfg.image| then |cfg.image[y]| - x else 0
  {
    if y >= |cfg.image| {
    } else if x >= |cfg.image[y]| {
      TargetsOpaque(cfg, y + 1, 0);
    } else {
      TargetsOpaque(cfg, y, x + 1);
    }
  }

  /** Some palette colour has no digit, so `getClosestColor` as written throws whenever it is called. */
  predicate PaletteThrows(palette: seq<string>)
  {
    exists j :: 0 <= j < |palette| && DigitRuns(palette[j]) == []
  }

  /** `Targets` follows the shape of the loops; an entry that needs drawing is the first target. */
  lemma TargetsStep(cfg: PowConfig, y: nat, x: nat)
    requires y < |cfg.image|
    ensures x >= |cfg.image[y]| ==> Targets(cfg, y, x) == Targets(cfg, y + 1, 0)
    ensures x < |cfg.image[y]| && !NeedsDraw(cfg, Cell(y, x)) ==> Targets(cfg, y, x) == Targets(cfg, y, x + 1)
    ensures x < |cfg.image[y]| && NeedsDraw(cfg, Cell(y, x)) ==> Targets(cfg, y, x) != [] && Targets(cfg, y, x)[0] == Cell(y, x)
  {
  }

  /** The draws of a list of entries. */
  function DrawsOf(cfg: PowConfig, cells: seq<Cell>): (d: seq<PowAction>)
    requires forall i :: 0 <= i < |cells| ==> InImage(cfg.image, cells[i])
    ensures |d| == |cells|
  {
    if cells == [] then [] else [DrawOf(cfg, cells[0])] + DrawsOf(cfg, cells[1..])
  }

  /** The draws an undisturbed run makes from row `y`, column `x` on. */
  function Wanted(cfg: PowConfig, y: nat, x: nat): seq<PowAction>
  {
    DrawsOf(cfg, Targets(cfg, y, x))
  }

  /** `Wanted` follows the shape of the loops. */
  lemma WantedStep(cfg: PowConfig, y: nat, x: nat)
    requires y < |cfg.image|
    ensures x >= |cfg.image[y]| ==> Wanted(cfg, y, x) == Wanted(cfg, y + 1, 0)
    ensures x < |cfg.image[y]| && NeedsDraw(cfg, Cell(y, x)) ==>
      Wanted(cfg, y, x) == [DrawOf(cfg, Cell(y, x))] + Wanted(cfg, y, x + 1)
    ensures x < |cfg.image[y]| && !NeedsDraw(cfg, Cell(y, x)) ==> Wanted(cfg, y, x) == Wanted(cfg, y, x + 1)
  {
    if x < |cfg.image[y]| {
      var c := Cell(y, x);
      var t, rest := Targets(cfg, y, x), Targets(cfg, y, x + 1);
      if NeedsDraw(cfg, c) {
        assert t == [c] + rest;
        assert t[0] == c && t[1..] == rest;
        assert Wanted(cfg, y, x) == [DrawOf(cfg, c)] + DrawsOf(cfg, rest);
      } else {
        assert t == rest;
      }
    }
  }

  // ---------------------------------------------------------------------
  // Reading the trace

  /** The draws of a trace, in order. */
  function Draws(actions: seq<PowAction>): (d: seq<PowAction>)
    ensures |d| <= |actions|
    ensures forall i :: 0 <= i < |d| ==> d[i].Draw?
  {
    if actions == [] then []
    else (if actions[0].Draw? then [actions[0]] else []) + Draws(actions[1..])
  }

  lemma {:induction false} DrawsAppend(a: seq<PowAction>, b: seq<PowAction>)
    ensures Draws(a + b) == Draws(a) + Draws(b)
  {
    if a == [] {
      assert a + b == b;
    } else {
      assert (a + b)[1..] == a[1..] + b;
      DrawsAppend(a[1..], b);
    }
  }

  /** No sleep numbered from `lo` up to `hi` has a stop landing in it. */
  predicate NoStopIn(stops: set<nat>, lo: nat, hi: nat)
  {
    forall k :: lo <= k < hi ==> k !in stops
  }

  /** `Stopped` appears at most as the very last action. */
  predicate StopLast(actions: seq<PowAction>)
  {
    forall i :: 0 <= i < |actions| && actions[i] == Stopped ==> i == |actions| - 1
  }

  // ---------------------------------------------------------------------
  // Properties of a run

  /** A step of the loops appends to the actions and reads nothing else of them. */
  lemma {:induction false} WalkFrame(cfg: PowConfig, y: nat, x: nat, s: Progress)
    ensures var t := Walk(cfg, y, x, s.(actions := []));
      Walk(cfg, y, x, s) == t.(actions := s.actions + t.actions)
    decreases |cfg.image| - y, if y < |cfg.image| then |cfg.image[y]| - x else 0
  {
    var s0 := s.(actions := []);
    if y >= |cfg.image| {
    } else if x >= |cfg.image[y]| {
      WalkFrame(cfg, y + 1, 0, s);
    } else if s.running {
      var c := Cell(y, x);
      var v, v0 := Visit(cfg, c, s), Visit(cfg, c, s0);
      assert v == v0.(actions := s.actions + v0.actions);
      assert v.(actions := []) == v0.(actions := []);
      WalkFrame(cfg, y, x + 1, v);
      WalkFrame(cfg, y, x + 1, v0);
      var t := Walk(cfg, y, x + 1, v0.(actions := []));
      assert s.actions + (v0.actions + t.actions) == s.actions + v0.actions + t.actions;
    }
  }

  /** A walk that is no longer running changes nothing. */
  lemma {:induction false} WalkIdle(cfg: PowConfig, y: nat, x: nat, s: Progress)
    requires !s.running
    ensures Walk(cfg, y, x, s) == s
    decreases |cfg.image| - y, if y < |cfg.image| then |cfg.image[y]| - x else 0
  {
    if y < |cfg.image| && x >= |cfg.image[y]| {
      WalkIdle(cfg, y + 1, 0, s);
    }
  }

  /**
   * What a walk from `s` (with no actions yet) to `r` has done, given the
   * draws `wanted` an undisturbed walk makes: a stopped bot does nothing;
   * one sleep per draw; the draws are a prefix of `wanted`, all of it when
   * still running, and then no stop landed; when the walk stopped, the stop
   * landed in its last sleep and in no earlier one; `Stopped` is recorded
   * exactly when the walk stopped, and only as the last action.
   */
  predicate Outcome(stops: set<nat>, wanted: seq<PowAction>, s: Progress, r: Progress)
  {
    && (!s.running ==> r == s)
    && r.sleeps == s.sleeps + |Draws(r.actions)|
    && Draws(r.actions) <= wanted
    && (r.running ==> s.running && NoStopIn(stops, s.sleeps, r.sleeps) && Draws(r.actions) == wanted)
    && (s.running && !r.running ==> s.sleeps < r.sleeps && r.sleeps - 1 in stops && NoStopIn(stops, s.sleeps, r.sleeps - 1))
    && (r.running <==> s.running && Stopped !in r.actions)
    && StopLast(r.actions)
  }

  /** The outcome of a walk that ends where it starts. */
  lemma OutcomeSame(stops: set<nat>, wanted: seq<PowAction>, s: Progress)
    requires s.actions == [] && (s.running ==> wanted == [])
    ensures Outcome(stops, wanted, s, s)
  {
  }

  /** The outcome of a walk whose first draw is followed by a stop. */
  lemma OutcomeStopped(stops: set<nat>, d: PowAction, rest: seq<PowAction>, s: Progress, delay: int)
    requires d.Draw? && s.running && s.actions == [] && s.sleeps in stops
    ensures Outcome(stops, [d] + rest, s, Progress(false, s.sleeps + 1, [d, Sleep(delay), Stopped]))
  {
    var a := [d, Sleep(delay), Stopped];
    assert a == [d] + [Sleep(delay)] + [Stopped];
    DrawsAppend([d] + [Sleep(delay)], [Stopped]);
    DrawsAppend([d], [Sleep(delay)]);
    assert Draws(a) == [d];
    assert ([d] + rest)[..1] == [d];
  }

  /** The outcome of a walk whose first draw is not followed by a stop, from the outcome of the rest. */
  lemma OutcomeDrawn(stops: set<nat>, d: PowAction, rest: seq<PowAction>, s: Progress, delay: int, t: Progress)
    requires d.Draw? && s.running && s.actions == [] && s.sleeps !in stops
    requires Outcome(stops, rest, Progress(true, s.sleeps + 1, []), t)
    ensures Outcome(stops, [d] + rest, s, t.(actions := [d, Sleep(delay)] + t.actions))
  {
    var head := [d, Sleep(delay)];
    var r := t.(actions := head + t.actions);
    DrawsAppend([d], [Sleep(delay)]);
    assert head == [d] + [Sleep(delay)];
    assert Draws(head) == [d];
    DrawsAppend(head, t.actions);
    var dt := Draws(t.actions);
    assert Draws(r.actions) == [d] + dt;
    assert ([d] + rest)[..1 + |dt|] == [d] + rest[..|dt|];
    assert Stopped in r.actions <==> Stopped in t.actions;
    forall i | 0 <= i < |r.actions| && r.actions[i] == Stopped
      ensures i == |r.actions| - 1
    {
      assert t.actions[i - 2] == Stopped;
    }
  }

  /** Every walk from a state without actions has the outcome of `Outcome` against `Wanted`. */
  lemma {:induction false} WalkSpec(cfg: PowConfig, y: nat, x: nat, s: Progress)
    requires s.actions == []
    ensures Outcome(cfg.stops, Wanted(cfg, y, x), s, Walk(cfg, y, x, s))
    decreases |cfg.image| - y, if y < |cfg.image| then |cfg.image[y]| - x else 0
  {
    if y >= |cfg.image| {
      OutcomeSame(cfg.stops, Wanted(cfg, y, x), s);
    } else if x >= |cfg.image[y]| {
      WantedStep(cfg, y, x);
      WalkSpec(cfg, y + 1, 0, s);
    } else if !s.running {
      OutcomeSame(cfg.stops, Wanted(cfg, y, x), s);
    } else {
      var c := Cell(y, x);
      var v := Visit(cfg, c, s);
      assert Walk(cfg, y, x, s) == Walk(cfg, y, x + 1, v);
      WantedStep(cfg, y, x);
      if !NeedsDraw(cfg, c) {
        WalkSpec(cfg, y, x + 1, s);
      } else {
        var d := DrawOf(cfg, c);
        var rest := Wanted(cfg, y, x + 1);
        assert Wanted(cfg, y, x) == [d] + rest;
        if s.sleeps in cfg.stops {
          var r := Progress(false, s.sleeps + 1, [d, Sleep(cfg.delay), Stopped]);
          assert [d, Sleep(cfg.delay)] + StopIf(true) == r.actions;
          assert v == r;
          WalkIdle(cfg, y, x + 1, v);
          OutcomeStopped(cfg.stops, d, rest, s, cfg.delay);
        } else {
          var v0 := Progress(true, s.sleeps + 1, []);
          assert v == v0.(actions := [d, Sleep(cfg.delay)]);
          WalkFrame(cfg, y, x + 1, v);
          var t := Walk(cfg, y, x + 1, v0);
          assert Walk(cfg, y, x + 1, v) == t.(actions := [d, Sleep(cfg.delay)] + t.actions);
          WalkSpec(cfg, y, x + 1, v0);
          OutcomeDrawn(cfg.stops, d, rest, s, cfg.delay, t);
        }
      }
    }
  }

  /** The draws of a list of entries, one by one. */
  lemma {:induction false} DrawsOfAt(cfg: PowConfig, cells: seq<Cell>, i: nat)
    requires forall j :: 0 <= j < |cells| ==> InImage(cfg.image, cells[j])
    requires i < |cells|
    ensures DrawsOf(cfg, cells)[i] == DrawOf(cfg, cells[i])
    decreases i
  {
    if i > 0 {
      DrawsOfAt(cfg, cells[1..], i - 1);
    }
  }

  // ---------------------------------------------------------------------
  // A whole run of start

  /** The state in which the loops of `start` begin. */
  function Begin(): Progress
  {
    Progress(true, 0, [])
  }

  /**
   * A run of `start`: its draws are the first of the wanted draws, all of
   * them when no stop lands in as many sleeps; it ends stopped exactly
   * when `Stopped` is recorded, and that is the last action; once a stop
   * lands in sleep `k`, at most `k + 1` pixels have been drawn.
   */
  lemma PowRun(cfg: PowConfig)
    ensures var r := Walk(cfg, 0, 0, Begin());
      && Draws(r.actions) <= Wanted(cfg, 0, 0)
      && (NoStopIn(cfg.stops, 0, |Wanted(cfg, 0, 0)|) ==> r.running && Draws(r.actions) == Wanted(cfg, 0, 0))
      && (Stopped in r.actions <==> !r.running)
      && StopLast(r.actions)
      && (forall k :: k in cfg.stops ==> |Draws(r.actions)| <= k + 1)
  {
    var r := Walk(cfg, 0, 0, Begin());
    WalkSpec(cfg, 0, 0, Begin());
    if NoStopIn(cfg.stops, 0, |Wanted(cfg, 0, 0)|) {
      assert r.sleeps <= |Wanted(cfg, 0, 0)|;
    }
    forall k | k in cfg.stops
      ensures |Draws(r.actions)| <= k + 1
    {
      if r.running {
        assert !(k < r.sleeps);
      } else {
        assert !(k < r.sleeps - 1);
      }
    }
  }

  /**
   * Each draw of a run is the draw of the matching target: an opaque entry
   * the canvas does not already show, at its offset position, with the
   * nearest palette index, in row-major order.
   */
  lemma PowRunDraws(cfg: PowConfig)
    ensures var d := Draws(Walk(cfg, 0, 0, Begin()).actions);
      var t := Targets(cfg, 0, 0);
      && |d| <= |t|
      && forall i :: 0 <= i < |d| ==> d[i] == DrawOf(cfg, t[i])
  {
    var d := Draws(Walk(cfg, 0, 0, Begin()).actions);
    var t := Targets(cfg, 0, 0);
    PowRun(cfg);
    forall i | 0 <= i < |d|
      ensures d[i] == DrawOf(cfg, t[i])
    {
      DrawsOfAt(cfg, t, i);
    }
  }

  /** A run over the heart preset draws at most its 8 opaque entries. */
  lemma HeartRun(cfg: PowConfig)
    requires cfg.image == HeartImage()
    ensures |Draws(Walk(cfg, 0, 0, Begin()).actions)| <= 8
  {
    PowRun(cfg);
    TargetsOpaque(cfg, 0, 0);
    HeartShape();
  }

  // ---------------------------------------------------------------------
  // The object

  class Bot {
    var startX: int
    var startY: int
    var delay: int
    var imageData: Image
    var colorPalette: seq<string>
    var running: bool
    ghost var trace: seq<PowAction>

    /** The constructor's defaults, with the palette `extractColorPalette` read from the page. */
    constructor(palette: seq<string>)
      ensures startX == 0 && startY == 0 && delay == DefaultDelay
      ensures imageData == [] && colorPalette == palette && !running && trace == []
    {
      startX := 0;
      startY := 0;
      delay := DefaultDelay;
      imageData := [];
      colorPalette := palette;
      running := false;
      trace := [];
    }

    /** What a run started now depends on, given the panel values, the canvas and where the stops land. */
    function Config(x0: int, y0: int, ms: int, probe: (int, int) -> Rgb, stops: set<nat>): PowConfig
      reads this`imageData, this`colorPalette
    {
      PowConfig(imageData, colorPalette, x0, y0, ms, probe, stops)
    }

    method Stop()
      modifies this`running, this`trace
      ensures !running && trace == old(trace) + [Stopped]
    {
      running := false;
      trace := trace + [Stopped];
    }

    method SetStartPosition(x: int, y: int)
      modifies this`startX, this`startY
      ensures startX == x && startY == y
    {
      startX := x;
      startY := y;
    }

    method SetDelay(ms: int)
      modifies this`delay
      ensures delay == ms
    {
      delay := ms;
    }

    method LoadHeartImage()
      modifies this`imageData
      ensures imageData == HeartImage()
    {
      imageData := HeartImage();
    }

    method LoadSmileyImage()
      modifies this`imageData
      ensures imageData == SmileyImage()
    {
      imageData := SmileyImage();
    }

    /** `loadImageFromData`: the rows are stored as given, without any check. */
    method LoadImageFromData(pixelData: Image)
      modifies this`imageData
      ensures imageData == pixelData
    {
      imageData := pixelData;
    }

    /**
     * `loadImageFromUrl` from the decoded RGBA buffer: pack it into rows and
     * store them. A scaled width or height of 0 makes `getImageData` throw;
     * the `catch` only logs, so `imageData` keeps its old value.
     */
    method LoadImageFromUrl(width: nat, height: nat, data: seq<Byte>)
      requires |data| == width * height * 4
      modifies this`imageData
      ensures width == 0 || height == 0 ==> imageData == old(imageData)
      ensures width > 0 && height > 0 ==> imageData == Packed(width, height, data) && Flatten(imageData) == data
    {
      if width == 0 || height == 0 {
        return;
      }
      imageData := PackRows(width, height, data);
      PackedRoundTrip(width, height, data);
    }

    /** `drawPixel(x, y, colorIndex)`: the call is recorded; the clicks it dispatches are outside the model. */
    method DrawPixel(x: int, y: int, colorIndex: nat)
      modifies this`trace
      ensures trace == old(trace) + [Draw(x, y, colorIndex)]
    {
      trace := trace + [Draw(x, y, colorIndex)];
    }

    /** `await this.sleep(ms)`, during which `stop()` runs when `stopLands`. */
    method Pause(ms: int, stopLands: bool)
      modifies this`running, this`trace
      ensures trace == old(trace) + [Sleep(ms)] + StopIf(stopLands)
      ensures running == (old(running) && !stopLands)
    {
      trace := trace + [Sleep(ms)];
      if stopLands {
        Stop();
      }
    }

    /**
     * `start`, with the start position and delay read from the panel and
     * the canvas read through `probe`: refuse when already running;
     * otherwise run the loops, then clear `running`. When a palette colour
     * has no digit, the first entry that needs drawing makes
     * `getClosestColor` throw: the loops end there, before any draw, and
     * `running` stays set. Otherwise the whole effect is `Walk`.
     */
    method Start(x0: int, y0: int, ms: int, probe: (int, int) -> Rgb, stops: set<nat>)
      modifies this`running, this`trace
      ensures old(running) ==> running && trace == old(trace)
      ensures !old(running) && PaletteThrows(colorPalette) && Targets(Config(x0, y0, ms, probe, stops), 0, 0) != [] ==>
        running && trace == old(trace)
      ensures !old(running) && !(PaletteThrows(colorPalette) && Targets(Config(x0, y0, ms, probe, stops), 0, 0) != []) ==>
        !running && trace == old(trace) + Walk(Config(x0, y0, ms, probe, stops), 0, 0, Begin()).actions
    {
      if running {
        return;
      }
      running := true;
      ghost var cfg := Config(x0, y0, ms, probe, stops);
      var sleeps: nat := 0; // sleeps so far in this run, to consult `stops`
      ghost var actions: seq<PowAction> := [];
      var y := 0;
      while y < |imageData|
        invariant y <= |imageData|
        invariant trace == old(trace) + actions
        invariant Walk(cfg, y, 0, Progress(running, sleeps, actions)) == Walk(cfg, 0, 0, Begin())
        invariant PaletteThrows(colorPalette) ==> running && actions == [] && Targets(cfg, y, 0) == Targets(cfg, 0, 0)
      {
        var threw;
        sleeps, threw, actions := DrawRow(cfg, old(trace), y, x0, y0, ms, probe, stops, sleeps, actions);
        if threw {
          return;
        }
        y := y + 1;
      }
      running := false;
    }

    /**
     * The inner loop of `start` over row `y`, from column 0: stop the whole
     * run once `running` is false, otherwise visit the entry. Returns the
     * sleeps so far and whether a lookup threw; `actions` are the actions of
     * the run so far, after `base`.
     */
    method DrawRow(ghost cfg: PowConfig, ghost base: seq<PowAction>, y: nat, x0: int, y0: int, ms: int,
                   probe: (int, int) -> Rgb, stops: set<nat>, sleeps0: nat, ghost actions0: seq<PowAction>)
      returns (sleeps: nat, threw: bool, ghost actions: seq<PowAction>)
      requires cfg == Config(x0, y0, ms, probe, stops) && y < |imageData|
      requires trace == base + actions0
      requires Walk(cfg, y, 0, Progress(running, sleeps0, actions0)) == Walk(cfg, 0, 0, Begin())
      requires PaletteThrows(colorPalette) ==> running && actions0 == [] && Targets(cfg, y, 0) == Targets(cfg, 0, 0)
      modifies this`running, this`trace
      ensures threw ==> running && trace == base && PaletteThrows(colorPalette) && Targets(cfg, 0, 0) != []
      ensures !threw ==> trace == base + actions
      ensures !threw ==> Walk(cfg, y + 1, 0, Progress(running, sleeps, actions)) == Walk(cfg, 0, 0, Begin())
      ensures !threw && PaletteThrows(colorPalette) ==>
        running && actions == [] && Targets(cfg, y + 1, 0) == Targets(cfg, 0, 0)
    {
      sleeps, threw, actions := sleeps0, false, actions0;
      var x := 0;
      while x < |imageData[y]|
        invariant x <= |imageData[y]|
        invariant trace == base + actions
        invariant Walk(cfg, y, x, Progress(running, sleeps, actions)) == Walk(cfg, 0, 0, Begin())
        invariant PaletteThrows(colorPalette) ==> running && actions == [] && Targets(cfg, y, x) == Targets(cfg, 0, 0)
      {
        if !running {
          WalkIdle(cfg, y, x, Progress(running, sleeps, actions));
          WalkIdle(cfg, y + 1, 0, Progress(running, sleeps, actions));
          return;
        }
        ghost var v := Visit(cfg, Cell(y, x), Progress(true, sleeps, []));
        ghost var before := actions;
        var used;
        used, threw := VisitPixel(cfg, y, x, x0, y0, ms, probe, stops, sleeps);
        if threw {
          TargetsStep(cfg, y, x);
          return;
        }
        VisitStep(cfg, y, x, sleeps, actions);
        AppendAssoc(base, actions, v.actions);
        actions := actions + v.actions;
        sleeps := sleeps + used;
        x := x + 1;
      }
      TargetsStep(cfg, y, x);
    }

    /**
     * One pass of the inner loop of `start` for entry (x, y), after the
     * cancellation check: skip a transparent entry, skip an entry the
     * canvas already shows, otherwise look up the nearest palette index
     * with `getClosestColor` as written, then draw and pause. Returns the
     * number of pauses, and whether the lookup threw.
     */
    method VisitPixel(ghost cfg: PowConfig, y: nat, x: nat, x0: int, y0: int, ms: int,
                      probe: (int, int) -> Rgb, stops: set<nat>, sleeps: nat) returns (used: nat, threw: bool)
      requires cfg == Config(x0, y0, ms, probe, stops) && InImage(imageData, Cell(y, x)) && running
      modifies this`running, this`trace
      ensures threw <==> NeedsDraw(cfg, Cell(y, x)) && PaletteThrows(colorPalette)
      ensures threw ==> running && used == 0 && trace == old(trace)
      ensures !threw ==> var v := Visit(cfg, Cell(y, x), Progress(true, sleeps, []));
        && running == v.running
        && sleeps + used == v.sleeps
        && trace == old(trace) + v.actions
    {
      var e := imageData[y][x];
      if e.a == 0 {
        return 0, false;
      }
      var current := probe(x0 + x, y0 + y);
      if current == Rgb(e.r, e.g, e.b) {
        return 0, false;
      }
      var closest := GetClosestColorAsWritten(colorPalette, e.r, e.g, e.b);
      GetClosestColorAsWrittenSpec(colorPalette, e.r, e.g, e.b);
      if closest.None? {
        return 0, true;
      }
      DrawPixel(x0 + x, y0 + y, closest.value);
      Pause(ms, sleeps in stops);
      used, threw := 1, false;
    }
  }

  /**
   * A visit of a running walk that did not throw: the walk goes on from the
   * next column, and a palette that would throw leaves it without actions
   * and with the same remaining targets.
   */
  lemma VisitStep(cfg: PowConfig, y: nat, x: nat, sleeps: nat, actions: seq<PowAction>)
    requires InImage(cfg.image, Cell(y, x))
    requires !(NeedsDraw(cfg, Cell(y, x)) && PaletteThrows(cfg.palette))
    ensures var v := Visit(cfg, Cell(y, x), Progress(true, sleeps, []));
      && Walk(cfg, y, x, Progress(true, sleeps, actions)) ==
         Walk(cfg, y, x + 1, Progress(v.running, v.sleeps, actions + v.actions))
      && (PaletteThrows(cfg.palette) ==>
           v.running && v.actions == [] && Targets(cfg, y, x + 1) == Targets(cfg, y, x))
  {
    var cur := Progress(true, sleeps, actions);
    assert Walk(cfg, y, x, cur) == Walk(cfg, y, x + 1, Visit(cfg, Cell(y, x), cur));
    VisitFrame(cfg, Cell(y, x), cur);
    TargetsStep(cfg, y, x);
  }

  /** A visit appends to the actions and reads nothing else of them. */
  lemma VisitFrame(cfg: PowConfig, c: Cell, s: Progress)
    requires InImage(cfg.image, c)
    ensures var v := Visit(cfg, c, s.(actions := []));
      Visit(cfg, c, s) == v.(actions := s.actions + v.actions)
  {
  }
}
