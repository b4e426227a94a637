/** The macro interpreter `execute_steps` (core_engine.py:294-491) with
    `_handle_loop_start` (core_engine.py:613-691) and the target resolution
    of `_handle_find` / `_do_find` (core_engine.py:493-611), as a step
    function on an explicit state. Everything the screen, the user or the
    operating system would answer during one step comes in an observation
    record; what the step does to the outside world goes out as effects. */
module Interpreter {
  import opened Wrappers
  import opened Geometry
  import opened Text
  import opened Values
  import opened LoopIds
  import LoopCache
  import opened Regions
  import opened Jump
  import Ocr

  // ---------------------------------------------------------------------
  // State
  // ---------------------------------------------------------------------

  /** A macro step: its action (empty when missing) and its parameters,
      which target resolution may rewrite in place. */
  datatype Step = Step(action: string, params: Params)

  /** `mode` of a loop, from the step's `mode` parameter. */
  datatype LoopMode = Fixed | UntilImage | UntilText | OtherMode

  /** An active loop: where it starts, the passes left (fixed mode), its
      cache name, its mode, the passes counted so far and the safety valve. */
  datatype Frame = Frame(start: nat, remain: int, id: string, mode: LoopMode, iteration: int,
                         maxIterations: int)

  /** pc, the loop stack, the loop cache, the last cursor position (None
      for the initial `(None, None)`) and the clipboard variable. */
  datatype State = State(steps: seq<Step>, pc: nat, loops: seq<Frame>, cache: LoopCache.Cache,
                         lastPos: Option<Point>, clipboard: string)

  /** What one recogniser call reports: a position, and for OCR the full
      recognised text. */
  datatype Sighting = Sighting(pos: Point, text: string)

  /** The answers target resolution receives: whether the cached location
      is re-confirmed, the result of the first search, that of the global
      fallback search, and what the extraction pattern matches. */
  datatype FindAnswer = FindAnswer(quickHit: bool, first: Option<Sighting>, fallback: Option<Sighting>,
                                   patternMatch: Option<string>)

  datatype WindowLookup = WindowFound | NoWindow | WindowError

  /** Everything observed while one step runs: the stop flag at the top of
      the loop, the find answers, the loop-exit condition, the chunk of a
      WAIT before which the stop flag was seen, the window lookup and the
      system clipboard. */
  datatype Obs = Obs(stop: bool, find: FindAnswer, condition: bool, waitStop: Option<nat>,
                     window: WindowLookup, systemClipboard: string)

  /** Whether the window library is installed. */
  datatype Env = Env(windowLibrary: bool)

  datatype Effect =
    | MoveCursor(to: Point)
    | MoveBy(dx: int, dy: int)
    | ClickAt(x: Option<int>, y: Option<int>, button: string, clicks: int)
    | Scroll(amount: int)
    | Sleep(ms: int)
    | WriteText(text: string)
    | PasteText(text: string)
    | PressKeys(keys: seq<string>)
    | ActivateWindow(title: Value)

  datatype HaltReason = Stopped | TargetNotFound | NoLastPosition | WindowUnavailable | StepFailed

  /** The state after a step, its effects, and whether the run halts. */
  datatype StepOutcome = StepOutcome(s: State, effects: seq<Effect>, halt: Option<HaltReason>)

  function Actions(steps: seq<Step>): (acts: seq<string>)
    ensures |acts| == |steps| && forall k :: 0 <= k < |steps| ==> acts[k] == steps[k].action
  {
    seq(|steps|, k requires 0 <= k < |steps| => steps[k].action)
  }

  /** The loop stack and the cache stack move in lockstep, every loop name
      is `L{start}_{depth}`, every start is a step, and every namespace
      belongs to an active loop. */
  predicate Inv(s: State)
  {
    s.pc <= |s.steps|
    && |s.cache.stack| == |s.loops|
    && (forall k :: 0 <= k < |s.loops| ==>
          s.cache.stack[k] == s.loops[k].id && s.loops[k].id == Id(s.loops[k].start, k)
          && s.loops[k].start < |s.steps|)
    && Owned(s.cache)
  }

  /** The state `execute_steps` starts from: the cache reset, no loops. */
  function Initial(steps: seq<Step>, lastPos: Option<Point>, clipboard: string): (s: State)
    ensures Inv(s) && s.pc == 0 && s.loops == [] && s.cache == LoopCache.Reset()
  {
    State(steps, 0, [], LoopCache.Reset(), lastPos, clipboard)
  }

  // ---------------------------------------------------------------------
  // Helpers
  // ---------------------------------------------------------------------

  function Goto(s: State, pc: nat, effects: seq<Effect>): StepOutcome
  {
    StepOutcome(s.(pc := pc), effects, None)
  }

  function HaltWith(s: State, reason: HaltReason): StepOutcome
  {
    StepOutcome(s, [], Some(reason))
  }

  /** The current step's parameters replaced. */
  function WithParams(s: State, p: Params): (r: State)
    requires s.pc < |s.steps|
    ensures Actions(r.steps) == Actions(s.steps) && r.pc == s.pc && r.loops == s.loops
    ensures r.cache == s.cache && r.lastPos == s.lastPos && r.clipboard == s.clipboard
  {
    s.(steps := s.steps[s.pc := Step(s.steps[s.pc].action, p)])
  }

  /** `float(p.get(key, default))` succeeds (the default is a float). */
  predicate FloatParamOk(p: Params, key: string) { key !in p || FloatOk(p[key]) }

  /** `float(p.get(key, 0.0)) > 0`. */
  predicate FloatParamPositive(p: Params, key: string) { key in p && FloatOk(p[key]) && FloatPositive(p[key]) }

  /** `int(p[key])`: None when the key is missing or does not convert. */
  function RequiredInt(p: Params, key: string): (r: Option<int>)
    ensures key !in p ==> r.None?
  {
    if key in p then ToInt(p[key]) else None
  }

  /** `int(p[key]) if key in p else None`, failing only on a bad value. */
  function OptionalInt(p: Params, key: string): (r: Option<Option<int>>)
    ensures r.None? <==> key in p && ToInt(p[key]).None?
    ensures r.Some? ==> (r.value.Some? <==> key in p)
    ensures r.Some? && key in p ==> r.value == ToInt(p[key])
  {
    if key !in p then Some(None)
    else match ToInt(p[key])
      case Some(i) => Some(Some(i))
      case None => None
  }

  // ---------------------------------------------------------------------
  // Simple actions
  // ---------------------------------------------------------------------

  /** CLICK: the position is remembered only when both coordinates are
      given and non-zero. */
  function ExecClick(s: State, p: Params): (o: StepOutcome)
    requires s.pc < |s.steps|
    ensures o.halt.Some? ==> o.s.pc == s.pc && o.s.loops == s.loops
    ensures Inv(s) ==> Inv(o.s)
    ensures o.halt.None? <==>
              && Get(p, "button", Str("left")).Str? && ToInt(Get(p, "clicks", Int(1))).Some?
              && FloatParamOk(p, "interval") && FloatParamOk(p, "duration")
              && ("x" in p ==> ToInt(p["x"]).Some?) && ("y" in p ==> ToInt(p["y"]).Some?)
    ensures o.halt.None? ==> o.s == s.(pc := s.pc + 1, lastPos := o.s.lastPos) && |o.effects| == 1
    ensures o.halt.None? ==>
              && o.effects[0].ClickAt?
              && o.effects[0].button == Lower(Get(p, "button", Str("left")).s)
              && o.effects[0].clicks == ToInt(Get(p, "clicks", Int(1))).value
              && (o.effects[0].x.Some? <==> "x" in p) && ("x" in p ==> o.effects[0].x == ToInt(p["x"]))
              && (o.effects[0].y.Some? <==> "y" in p) && ("y" in p ==> o.effects[0].y == ToInt(p["y"]))
    ensures o.halt.None? && o.effects[0].x.Some? && o.effects[0].y.Some?
              && o.effects[0].x.value != 0 && o.effects[0].y.value != 0 ==>
              o.s.lastPos == Some(Point(o.effects[0].x.value, o.effects[0].y.value))
    ensures o.halt.None? && o.s.lastPos != s.lastPos ==>
              && o.effects[0].x.Some? && o.effects[0].y.Some?
              && o.s.lastPos == Some(Point(o.effects[0].x.value, o.effects[0].y.value))
              && o.effects[0].x.value != 0 && o.effects[0].y.value != 0
    ensures o.halt.Some? ==> o.halt == Some(StepFailed) && o.s == s
  {
    var btn := Get(p, "button", Str("left"));
    var clicks := ToInt(Get(p, "clicks", Int(1)));
    var x := OptionalInt(p, "x");
    var y := OptionalInt(p, "y");
    if !btn.Str? || clicks.None? || !FloatParamOk(p, "interval") || !FloatParamOk(p, "duration")
       || x.None? || y.None? then HaltWith(s, StepFailed)
    else
      var xv := x.value;
      var yv := y.value;
      var pos := if xv.Some? && yv.Some? && xv.value != 0 && yv.value != 0
                 then Some(Point(xv.value, yv.value)) else s.lastPos;
      Goto(s.(lastPos := pos), s.pc + 1, [ClickAt(xv, yv, Lower(btn.s), clicks.value)])
  }

  /** MOVE_TO: both coordinates are required; the position is remembered. */
  function ExecMoveTo(s: State, p: Params): (o: StepOutcome)
    requires s.pc < |s.steps|
    ensures o.halt.Some? ==> o.s.pc == s.pc && o.s.loops == s.loops
    ensures Inv(s) ==> Inv(o.s)
    ensures o.halt.None? <==> RequiredInt(p, "x").Some? && RequiredInt(p, "y").Some? && FloatParamOk(p, "duration")
    ensures o.halt.None? ==> o.s.lastPos == Some(Point(RequiredInt(p, "x").value, RequiredInt(p, "y").value))
    ensures o.halt.None? ==> o.effects == [MoveCursor(o.s.lastPos.value)] && o.s.pc == s.pc + 1
  {
    var x := RequiredInt(p, "x");
    var y := RequiredInt(p, "y");
    if x.None? || y.None? || !FloatParamOk(p, "duration") then HaltWith(s, StepFailed)
    else
      var pos := Point(x.value, y.value);
      Goto(s.(lastPos := Some(pos)), s.pc + 1, [MoveCursor(pos)])
  }

  /** MOVE_OFFSET: halts when there is no remembered position, which
      includes one whose x is 0; otherwise moves by the offset. */
  function ExecMoveOffset(s: State, p: Params): (o: StepOutcome)
    requires s.pc < |s.steps|
    ensures o.halt.Some? ==> o.s.pc == s.pc && o.s.loops == s.loops
    ensures Inv(s) ==> Inv(o.s)
    ensures s.lastPos.None? || s.lastPos.value.x == 0 ==> o.halt == Some(NoLastPosition)
    ensures o.halt.None? <==>
              && s.lastPos.Some? && s.lastPos.value.x != 0
              && RequiredInt(p, "x_offset").Some? && RequiredInt(p, "y_offset").Some?
              && FloatParamOk(p, "duration")
    ensures o.halt.Some? && s.lastPos.Some? && s.lastPos.value.x != 0 ==> o.halt == Some(StepFailed)
    ensures o.halt.Some? ==> o.s == s
    ensures o.halt.None? ==>
              && o.s == s.(pc := s.pc + 1, lastPos := o.s.lastPos)
              && o.effects == [MoveBy(RequiredInt(p, "x_offset").value, RequiredInt(p, "y_offset").value)]
    ensures o.halt.None? ==>
              && s.lastPos.Some? && o.s.lastPos.Some?
              && RequiredInt(p, "x_offset").Some? && RequiredInt(p, "y_offset").Some?
              && o.s.lastPos.value.x - s.lastPos.value.x == RequiredInt(p, "x_offset").value
              && o.s.lastPos.value.y - s.lastPos.value.y == RequiredInt(p, "y_offset").value
  {
    if s.lastPos.None? || s.lastPos.value.x == 0 then HaltWith(s, NoLastPosition)
    else
      var dx := RequiredInt(p, "x_offset");
      var dy := RequiredInt(p, "y_offset");
      if dx.None? || dy.None? || !FloatParamOk(p, "duration") then HaltWith(s, StepFailed)
      else
        var pos := Point(s.lastPos.value.x + dx.value, s.lastPos.value.y + dy.value);
        Goto(s.(lastPos := Some(pos)), s.pc + 1, [MoveBy(dx.value, dy.value)])
  }

  /** SCROLL: moves first when both coordinates are given; the remembered
      position is left alone. */
  function ExecScroll(s: State, p: Params): (o: StepOutcome)
    requires s.pc < |s.steps|
    ensures o.halt.Some? ==> o.s.pc == s.pc && o.s.loops == s.loops
    ensures Inv(s) ==> Inv(o.s)
    ensures o.s.lastPos == s.lastPos
    ensures o.halt.None? <==>
              && ToInt(Get(p, "amount", Int(0))).Some?
              && ("x" in p && "y" in p ==> RequiredInt(p, "x").Some? && RequiredInt(p, "y").Some?)
    ensures o.halt.Some? ==> o.halt == Some(StepFailed) && o.s == s
    ensures o.halt.None? ==> o.s == s.(pc := s.pc + 1)
    ensures o.halt.None? ==>
              && |o.effects| > 0 && ToInt(Get(p, "amount", Int(0))).Some?
              && o.effects[|o.effects| - 1] == Scroll(ToInt(Get(p, "amount", Int(0))).value)
    ensures o.halt.None? ==> (|o.effects| == 2 <==> "x" in p && "y" in p) && |o.effects| <= 2
    ensures o.halt.None? && |o.effects| == 2 ==>
              o.effects[0] == MoveCursor(Point(RequiredInt(p, "x").value, RequiredInt(p, "y").value))
  {
    var amount := ToInt(Get(p, "amount", Int(0)));
    if amount.None? then HaltWith(s, StepFailed)
    else if "x" in p && "y" in p then
      var x := RequiredInt(p, "x");
      var y := RequiredInt(p, "y");
      if x.None? || y.None? then HaltWith(s, StepFailed)
      else Goto(s, s.pc + 1, [MoveCursor(Point(x.value, y.value)), Scroll(amount.value)])
    else Goto(s, s.pc + 1, [Scroll(amount.value)])
  }

  /** The chunk length of WAIT's sleeps. */
  const WaitChunk: nat := 100

  function SumInts(xs: seq<int>): int
  {
    if |xs| == 0 then 0 else xs[0] + SumInts(xs[1..])
  }

  /** `min(100, ms - k)` for k in `range(from, ms, 100)`: the chunks still
      to sleep once `from` milliseconds are behind. */
  function WaitChunks(ms: int, from: nat): (cs: seq<int>)
    ensures forall k :: 0 <= k < |cs| ==> 0 < cs[k] <= WaitChunk
    ensures SumInts(cs) == if from < ms then ms - from else 0
    decreases ms - from
  {
    if from >= ms then []
    else [Min(WaitChunk, ms - from)] + WaitChunks(ms, from + WaitChunk)
  }

  /** WAIT: sleeps `ms` in chunks of at most 100 ms, checking the stop flag
      before each chunk; a stop seen before chunk j leaves the rest out. */
  function ExecWait(s: State, p: Params, waitStop: Option<nat>): (o: StepOutcome)
    requires s.pc < |s.steps|
    ensures o.halt.Some? ==> o.s.pc == s.pc && o.s.loops == s.loops
    ensures Inv(s) ==> Inv(o.s)
    ensures o.halt.None? <==> RequiredInt(p, "ms").Some?
    ensures o.halt.None? ==> o.s == s.(pc := s.pc + 1)
    ensures o.halt.None? ==> forall k :: 0 <= k < |o.effects| ==>
      o.effects[k].Sleep? && 0 < o.effects[k].ms <= WaitChunk
    ensures o.halt.None? ==>
              var cs := WaitChunks(RequiredInt(p, "ms").value, 0);
              && |o.effects| <= |cs|
              && (forall k :: 0 <= k < |o.effects| ==> o.effects[k] == Sleep(cs[k]))
              && (waitStop.None? ==> |o.effects| == |cs|)
              && (waitStop.Some? && waitStop.value <= |cs| ==> |o.effects| == waitStop.value)
  {
    match RequiredInt(p, "ms")
    case None => HaltWith(s, StepFailed)
    case Some(ms) =>
      var cs := WaitChunks(ms, 0);
      var n := if waitStop.Some? then Min(waitStop.value, |cs|) else |cs|;
      Goto(s, s.pc + 1, seq(n, k requires 0 <= k < n => Sleep(cs[k])))
  }

  /** The placeholder TYPE_TEXT replaces with the clipboard. */
  const ClipboardPlaceholder: string := "{CLIPBOARD}"

  /** What the placeholder is replaced by: the clipboard variable, or the
      system clipboard when the variable is empty. */
  function ClipboardSource(s: State, systemClipboard: string): (r: string)
    ensures |s.clipboard| > 0 ==> r == s.clipboard
    ensures |s.clipboard| == 0 ==> r == systemClipboard
  {
    if |s.clipboard| > 0 then s.clipboard else systemClipboard
  }

  /** TYPE_TEXT: the placeholder becomes the clipboard variable, or the
      system clipboard when that is empty; text is typed when an interval
      is set and pasted otherwise. */
  function ExecTypeText(s: State, p: Params, systemClipboard: string): (o: StepOutcome)
    requires s.pc < |s.steps|
    ensures o.halt.Some? ==> o.s.pc == s.pc && o.s.loops == s.loops
    ensures Inv(s) ==> Inv(o.s)
    ensures o.halt.None? <==> FloatParamOk(p, "interval") && "text" in p && p["text"].Str?
    ensures o.halt.None? ==> o.s == s.(pc := s.pc + 1) && |o.effects| == 1
    ensures o.halt.None? ==> (o.effects[0].WriteText? <==> FloatParamPositive(p, "interval"))
    ensures o.halt.None? ==> o.effects[0].WriteText? || o.effects[0].PasteText?
    ensures o.halt.None? ==>
              o.effects[0].text == ReplaceAll(p["text"].s, ClipboardPlaceholder, ClipboardSource(s, systemClipboard))
    ensures o.halt.None? && !Contains(p["text"].s, ClipboardPlaceholder) ==> o.effects[0].text == p["text"].s
  {
    if !FloatParamOk(p, "interval") || "text" !in p || !p["text"].Str? then HaltWith(s, StepFailed)
    else
      var text := p["text"].s;
      var source := ClipboardSource(s, systemClipboard);
      var typed := if Contains(text, ClipboardPlaceholder) then ReplaceAll(text, ClipboardPlaceholder, source)
                   else text;
      Goto(s, s.pc + 1, [if FloatParamPositive(p, "interval") then WriteText(typed) else PasteText(typed)])
  }

  /** `id={CLIPBOARD}` with no interval pastes `id=` followed by the
      clipboard variable, or by the system clipboard when that is empty. */
  lemma TypeTextFillsPlaceholder(s: State, systemClipboard: string)
    requires s.pc < |s.steps|
    ensures var o := ExecTypeText(s, map["text" := Str("id={CLIPBOARD}")], systemClipboard);
      o.halt.None? && o.effects == [PasteText("id=" + ClipboardSource(s, systemClipboard))]
  {
    var src := ClipboardSource(s, systemClipboard);
    var pieces := ["id=", ""];
    assert Join(pieces, ClipboardPlaceholder) == "id={CLIPBOARD}" by {
      assert pieces[1..] == [""];
    }
    assert Join(pieces, src) == "id=" + src by {
      assert pieces[1..] == [""];
    }
    TypeTextFillsEveryPlaceholder(s, map["text" := Str("id={CLIPBOARD}")], pieces, systemClipboard);
  }

  /** Every `{CLIPBOARD}` in the text is filled: a text made of literal
      pieces without `{`, joined by the placeholder, is typed as the same
      pieces joined by the clipboard text. */
  lemma {:induction false} TypeTextFillsEveryPlaceholder(s: State, p: Params, pieces: seq<string>, systemClipboard: string)
    requires s.pc < |s.steps| && FloatParamOk(p, "interval")
    requires "text" in p && p["text"] == Str(Join(pieces, ClipboardPlaceholder))
    requires forall i :: 0 <= i < |pieces| ==> '{' !in pieces[i]
    ensures var o := ExecTypeText(s, p, systemClipboard);
      o.halt.None? && o.effects[0].text == Join(pieces, ClipboardSource(s, systemClipboard))
  {
    assert ClipboardPlaceholder[0] == '{';
    ReplaceAllJoin(pieces, ClipboardPlaceholder, ClipboardSource(s, systemClipboard));
  }

  /** PRESS_KEY: lowercased, spaces removed, split on '+'; never an empty
      key list. */
  function ExecPressKey(s: State, p: Params): (o: StepOutcome)
    requires s.pc < |s.steps|
    ensures o.halt.Some? ==> o.s.pc == s.pc && o.s.loops == s.loops
    ensures Inv(s) ==> Inv(o.s)
    ensures o.halt.None? <==> Get(p, "key", Str("")).Str?
    ensures o.halt.None? ==> o.s == s.(pc := s.pc + 1) && |o.effects| == 1 && o.effects[0].PressKeys?
    ensures o.halt.None? ==>
              && |o.effects[0].keys| >= 1
              && (forall k :: 0 <= k < |o.effects[0].keys| ==> '+' !in o.effects[0].keys[k])
              && Join(o.effects[0].keys, "+") == ReplaceAll(Lower(Get(p, "key", Str("")).s), " ", "")
  {
    assert "+" == ['+'];
    var key := Get(p, "key", Str(""));
    if !key.Str? then HaltWith(s, StepFailed)
    else Goto(s, s.pc + 1, [PressKeys(Split(ReplaceAll(Lower(key.s), " ", ""), '+'))])
  }

  /** The keys PRESS_KEY sends hold no space and no upper-case letter. */
  lemma PressKeyKeysPlain(s: State, p: Params)
    requires s.pc < |s.steps| && Get(p, "key", Str("")).Str?
    ensures var keys := ExecPressKey(s, p).effects[0].keys;
      forall k :: 0 <= k < |keys| ==> ' ' !in keys[k] && forall j :: 0 <= j < |keys[k]| ==> !IsUpperLetter(keys[k][j])
  {
    var o := ExecPressKey(s, p);
    var keys := o.effects[0].keys;
    var joined := ReplaceAll(Lower(Get(p, "key", Str("")).s), " ", "");
    assert Join(keys, "+") == joined;
    ReplaceCharRemoves(Lower(Get(p, "key", Str("")).s), ' ');
    forall k, j | 0 <= k < |keys| && 0 <= j < |keys[k]|
      ensures keys[k][j] != ' ' && !IsUpperLetter(keys[k][j])
    {
      JoinIncludes(keys, "+", k, keys[k][j]);
    }
  }

  /** ACTIVATE_WINDOW: halts without the window library, without a title,
      and when no window is found or activation fails. */
  function ExecActivateWindow(env: Env, s: State, p: Params, window: WindowLookup): (o: StepOutcome)
    requires s.pc < |s.steps|
    ensures o.halt.Some? ==> o.s.pc == s.pc && o.s.loops == s.loops
    ensures Inv(s) ==> Inv(o.s)
    ensures o.halt.None? <==> env.windowLibrary && Truthy(Get(p, "title", Null)) && window == WindowFound
    ensures o.halt.Some? ==> o.halt == Some(WindowUnavailable)
    ensures o.halt.None? ==> o.s == s.(pc := s.pc + 1) && o.effects == [ActivateWindow(p["title"])]
  {
    var title := Get(p, "title", Null);
    if !env.windowLibrary || !Truthy(title) || window != WindowFound then HaltWith(s, WindowUnavailable)
    else Goto(s, s.pc + 1, [ActivateWindow(title)])
  }

  // ---------------------------------------------------------------------
  // Target resolution
  // ---------------------------------------------------------------------

  const CacheBoxKey: string := "cache_box"

  /** ENABLE_GLOBAL_FALLBACK (core_engine.py:28). */
  const EnableGlobalFallback: bool := true

  /** The outcome of one recogniser call in `_do_find`: a raised exception,
      or the position found (if any) and the clipboard variable after it. */
  datatype DoFindResult = DoFindFailed | DoFindDone(res: Option<Point>, clipboard: string)

  /** `_do_find`: an image search needs `path` and a numeric `confidence`;
      a text search needs `text`, finds nothing for a target that
      normalises to nothing, and on success may store the recognised text
      (or what the extraction pattern matches in it) in the clipboard
      variable. */
  function DoFind(isImg: bool, p: Params, sighting: Option<Sighting>, patternMatch: Option<string>,
                  clipboard: string): (r: DoFindResult)
    ensures isImg ==> (r.DoFindFailed? <==> "path" !in p || !FloatParamOk(p, "confidence"))
    ensures !isImg && "text" !in p ==> r.DoFindFailed?
    ensures r.DoFindDone? && r.res.Some? ==> sighting.Some? && r.res.value == sighting.value.pos
    ensures r.DoFindDone? && r.res.None? ==> r.clipboard == clipboard
    ensures r.DoFindDone? && r.clipboard != clipboard ==>
      !isImg && Truthy(Get(p, "save_to_clipboard", Bool(false)))
  {
    if isImg then
      if "path" !in p || !FloatParamOk(p, "confidence") then DoFindFailed
      else DoFindDone(if sighting.Some? then Some(sighting.value.pos) else None, clipboard)
    else if "text" !in p then DoFindFailed
    else if Ocr.NormaliseTarget(p["text"]).None? || sighting.None? then DoFindDone(None, clipboard)
    else if !Truthy(Get(p, "save_to_clipboard", Bool(false))) then DoFindDone(Some(sighting.value.pos), clipboard)
    else
      var pattern := Get(p, "extract_pattern", Str(""));
      if !pattern.Str? then DoFindFailed
      else
        var text := if |Strip(pattern.s)| > 0 && patternMatch.Some? then patternMatch.value
                    else sighting.value.text;
        DoFindDone(Some(sighting.value.pos), text)
  }

  datatype FindResult = FoundAt(pos: Point) | NotFound | FindFailed

  datatype FindStep = FindStep(res: FindResult, s: State)

  /** The loop-cache signature of a find step: the action, an underscore,
      and the rendered path, or the text when there is no path. */
  function Signature(act: string, p: Params): (r: string)
    ensures |r| > |act| && r[..|act|] == act && r[|act|] == '_'
    ensures "path" in p ==> r[|act| + 1..] == Render(p["path"])
  {
    act + "_" + Render(Get(p, "path", Get(p, "text", Str(""))))
  }

  /** The signature does not depend on the cache box, so rewriting or
      deleting the box keeps a step's cached location reachable. */
  lemma SignatureIgnoresCacheBox(act: string, p: Params, v: Value)
    ensures Signature(act, p[CacheBoxKey := v]) == Signature(act, p)
    ensures Signature(act, p - {CacheBoxKey}) == Signature(act, p)
  {
    assert Get(p[CacheBoxKey := v], "path", Get(p[CacheBoxKey := v], "text", Str("")))
        == Get(p, "path", Get(p, "text", Str("")));
    assert Get(p - {CacheBoxKey}, "path", Get(p - {CacheBoxKey}, "text", Str("")))
        == Get(p, "path", Get(p, "text", Str("")));
  }

  /** A found position is remembered, and stored in the innermost loop's
      cache. */
  function Record(s: State, sig: string, pos: Point): (f: FindStep)
    ensures f.res == FoundAt(pos) && f.s.lastPos == Some(pos)
    ensures f.s.cache == LoopCache.Set(s.cache, sig, pos)
    ensures f.s.steps == s.steps && f.s.pc == s.pc && f.s.loops == s.loops && f.s.clipboard == s.clipboard
  {
    FindStep(FoundAt(pos), s.(cache := LoopCache.Set(s.cache, sig, pos), lastPos := Some(pos)))
  }

  /** The parameters once the cache box is checked: a rejected box is
      deleted, everything else stays as it is. */
  function CheckedParams(p: Params): (q: Params)
    ensures CacheBoxKey in q <==> CacheBoxKey in p && DecideCacheBox(p[CacheBoxKey]).keep
    ensures forall k :: k in p && k != CacheBoxKey ==> k in q && q[k] == p[k]
    ensures q.Keys <= p.Keys
    ensures CacheBoxKey in q ==> q[CacheBoxKey] == p[CacheBoxKey]
  {
    if CacheBoxKey in p && !DecideCacheBox(p[CacheBoxKey]).keep then p - {CacheBoxKey} else p
  }

  /** The padded region an accepted cache box asks to search first. */
  function SearchRegion(p: Params): (r: Option<Rect>)
    ensures r.Some? <==> CacheBoxKey in p && DecideCacheBox(p[CacheBoxKey]).keep
  {
    if CacheBoxKey in p then DecideCacheBox(p[CacheBoxKey]).region else None
  }

  /** The location the innermost loop's cache holds for the current step;
      none outside a loop. */
  function CachedLocation(s: State): (r: Option<Point>)
    requires s.pc < |s.steps|
    ensures r.Some? ==> LoopCache.CurrentLoop(s.cache).Some?
  {
    var sig := Signature(s.steps[s.pc].action, CheckedParams(s.steps[s.pc].params));
    if LoopCache.CurrentLoop(s.cache).Some? then LoopCache.Get(s.cache, sig) else None
  }

  /** The cached location is used as is: an image step inside a loop with
      a cached location, a path and a numeric confidence, re-confirmed by
      the quick check. */
  predicate CacheHit(s: State, ans: FindAnswer)
    requires s.pc < |s.steps|
  {
    var q := CheckedParams(s.steps[s.pc].params);
    && CachedLocation(s).Some? && Contains(s.steps[s.pc].action, "IMAGE")
    && "path" in q && FloatParamOk(q, "confidence") && ans.quickHit
  }

  /** The search of the region, or of the screen when there is none. */
  function FirstSearch(s: State, ans: FindAnswer): DoFindResult
    requires s.pc < |s.steps|
  {
    DoFind(Contains(s.steps[s.pc].action, "IMAGE"), CheckedParams(s.steps[s.pc].params),
           ans.first, ans.patternMatch, s.clipboard)
  }

  /** The global search after the first search found nothing. */
  function FallbackSearch(s: State, ans: FindAnswer): DoFindResult
    requires s.pc < |s.steps| && FirstSearch(s, ans).DoFindDone?
  {
    DoFind(Contains(s.steps[s.pc].action, "IMAGE"), CheckedParams(s.steps[s.pc].params),
           ans.fallback, ans.patternMatch, FirstSearch(s, ans).clipboard)
  }

  /** The global search runs: no cache hit, and a search region in which
      the first search found nothing. */
  predicate FallbackRuns(s: State, ans: FindAnswer)
    requires s.pc < |s.steps|
  {
    && !CacheHit(s, ans) && FirstSearch(s, ans).DoFindDone? && FirstSearch(s, ans).res.None?
    && SearchRegion(s.steps[s.pc].params).Some? && EnableGlobalFallback
  }

  /** `_handle_find`: the cache box becomes a padded search region or is
      deleted; inside a loop a cached image location that re-checks is
      used as is; otherwise the region (or the screen) is searched, then
      the whole screen if a region search failed, and a position found by
      that fallback becomes the new cache box. */
  function HandleFind(s: State, ans: FindAnswer): (f: FindStep)
    requires s.pc < |s.steps|
    ensures Actions(f.s.steps) == Actions(s.steps) && |f.s.steps| == |s.steps|
    ensures f.s.pc == s.pc && f.s.loops == s.loops
    ensures f.s.cache == s.cache || (f.res.FoundAt? && f.s.cache == LoopCache.Set(s.cache, Signature(s.steps[s.pc].action, f.s.steps[s.pc].params), f.res.pos))
    ensures f.res.FoundAt? ==> f.s.lastPos == Some(f.res.pos)
    ensures !f.res.FoundAt? ==> f.s.lastPos == s.lastPos
  {
    var act := s.steps[s.pc].action;
    var p := s.steps[s.pc].params;
    var isImg := Contains(act, "IMAGE");
    var p1 := CheckedParams(p);
    var s1 := WithParams(s, p1);
    var sig := Signature(act, p1);
    var cached := CachedLocation(s);
    if cached.Some? && isImg && ("path" !in p1 || !FloatParamOk(p1, "confidence")) then FindStep(FindFailed, s1)
    else if cached.Some? && isImg && ans.quickHit then FindStep(FoundAt(cached.value), s1.(lastPos := cached))
    else
      match DoFind(isImg, p1, ans.first, ans.patternMatch, s1.clipboard)
      case DoFindFailed => FindStep(FindFailed, s1)
      case DoFindDone(res, clip) =>
        var s2 := s1.(clipboard := clip);
        if res.None? && SearchRegion(p).Some? && EnableGlobalFallback then
          match DoFind(isImg, p1, ans.fallback, ans.patternMatch, clip)
          case DoFindFailed => FindStep(FindFailed, s2)
          case DoFindDone(res2, clip2) =>
            var s3 := s2.(clipboard := clip2);
            if res2.Some? then
              var p2 := p1[CacheBoxKey := FallbackBox(res2.value)];
              assert Signature(act, p2) == sig;
              Record(WithParams(s3, p2), sig, res2.value)
            else FindStep(NotFound, s3)
        else if res.Some? then Record(s2, sig, res.value)
        else FindStep(NotFound, s2)
  }

  /** The order in which `_handle_find` resolves a target, and what it
      leaves in the step's parameters: a re-confirmed cached location wins;
      otherwise the first search's position; otherwise, only after a miss
      inside a search region, the global search's position, which is then
      written back as the new cache box. A rejected cache box is deleted
      in every case. */
  lemma HandleFindResolves(s: State, ans: FindAnswer)
    requires s.pc < |s.steps|
    ensures var f := HandleFind(s, ans); var q := CheckedParams(s.steps[s.pc].params);
      CacheHit(s, ans) ==>
        f.res == FoundAt(CachedLocation(s).value) && f.s.steps[s.pc].params == q && f.s.cache == s.cache
    ensures var f := HandleFind(s, ans); var q := CheckedParams(s.steps[s.pc].params);
      !CacheHit(s, ans) && FirstSearch(s, ans).DoFindDone? && FirstSearch(s, ans).res.Some? ==>
        ans.first.Some? && f.res == FoundAt(ans.first.value.pos) && f.s.steps[s.pc].params == q
    ensures var f := HandleFind(s, ans); var q := CheckedParams(s.steps[s.pc].params);
      FallbackRuns(s, ans) && FallbackSearch(s, ans).DoFindDone? && FallbackSearch(s, ans).res.Some? ==>
        && ans.fallback.Some? && f.res == FoundAt(ans.fallback.value.pos)
        && f.s.steps[s.pc].params == q[CacheBoxKey := FallbackBox(ans.fallback.value.pos)]
    ensures var f := HandleFind(s, ans);
      f.res.FoundAt? <==>
        || CacheHit(s, ans)
        || (FirstSearch(s, ans).DoFindDone? && FirstSearch(s, ans).res.Some?)
        || (FallbackRuns(s, ans) && FallbackSearch(s, ans).DoFindDone? && FallbackSearch(s, ans).res.Some?)
    ensures var f := HandleFind(s, ans); var q := CheckedParams(s.steps[s.pc].params);
      !(FallbackRuns(s, ans) && FallbackSearch(s, ans).DoFindDone? && FallbackSearch(s, ans).res.Some?) ==>
        f.s.steps[s.pc].params == q
  {
  }

  /** The global search's answer matters only when the fallback runs. */
  lemma FallbackOnlyAfterRegionMiss(s: State, ans: FindAnswer, other: Option<Sighting>)
    requires s.pc < |s.steps| && !FallbackRuns(s, ans)
    ensures HandleFind(s, ans) == HandleFind(s, ans.(fallback := other))
  {
  }

  /** A re-confirmed cached location makes both searches irrelevant. */
  lemma CacheHitSkipsSearch(s: State, ans: FindAnswer, first: Option<Sighting>, fallback: Option<Sighting>)
    requires s.pc < |s.steps| && CacheHit(s, ans)
    ensures HandleFind(s, ans) == HandleFind(s, ans.(first := first, fallback := fallback))
  {
  }

  /** Every namespace belongs to an active loop. */
  predicate Owned(c: LoopCache.Cache)
  {
    forall n :: n in c.caches ==> n in c.stack
  }

  /** Storing a location creates at most the innermost loop's namespace. */
  lemma SetKeepsOwned(c: LoopCache.Cache, sig: string, pos: Point)
    requires Owned(c)
    ensures Owned(LoopCache.Set(c, sig, pos))
  {
  }

  /** Target resolution keeps the interpreter invariant. */
  lemma HandleFindInv(s: State, ans: FindAnswer)
    requires s.pc < |s.steps|
    ensures Inv(s) ==> Inv(HandleFind(s, ans).s)
  {
    if !Inv(s) { return; }
    var f := HandleFind(s, ans);
    assert Owned(s.cache);
    if f.s.cache != s.cache {
      SetKeepsOwned(s.cache, Signature(s.steps[s.pc].action, f.s.steps[s.pc].params), f.res.pos);
    }
    assert Owned(f.s.cache);
  }

  /** FIND_* and IF_*: a found target moves the cursor there; an unmet IF_
      skips to after its ELSE or END_IF; an unfound FIND_ halts. */
  function ExecFind(s: State, ans: FindAnswer): (o: StepOutcome)
    requires s.pc < |s.steps|
    ensures o.halt.Some? ==> o.s.pc == s.pc && o.s.loops == s.loops
    ensures Actions(o.s.steps) == Actions(s.steps)
    ensures Inv(s) ==> Inv(o.s)
    ensures HandleFind(s, ans).res.NotFound? && IfTag <= s.steps[s.pc].action ==>
              o.halt.None? && o.s.pc == SkipIf(Actions(s.steps), s.pc) && o.effects == []
    ensures HandleFind(s, ans).res.NotFound? && !(IfTag <= s.steps[s.pc].action) ==>
              o.halt == Some(TargetNotFound)
    ensures HandleFind(s, ans).res.FoundAt? ==>
              o.halt.None? && o.s.pc == s.pc + 1 && o.effects == [MoveCursor(HandleFind(s, ans).res.pos)]
  {
    var act := s.steps[s.pc].action;
    var f := HandleFind(s, ans);
    HandleFindInv(s, ans);
    ExecFound(s, act, f)
  }

  /** The step's continuation once its target is resolved. */
  function ExecFound(s: State, act: string, f: FindStep): (o: StepOutcome)
    requires s.pc < |s.steps| && Actions(f.s.steps) == Actions(s.steps) && f.s.pc == s.pc
    requires act == s.steps[s.pc].action
    ensures Inv(f.s) ==> Inv(o.s)
    ensures Actions(o.s.steps) == Actions(s.steps)
    ensures f.res.NotFound? && IfTag <= act ==>
              o.halt.None? && o.s.pc == SkipIf(Actions(s.steps), s.pc) && o.effects == []
    ensures f.res.NotFound? && !(IfTag <= act) ==> o.halt == Some(TargetNotFound)
    ensures f.res.FoundAt? ==> o.halt.None? && o.s.pc == s.pc + 1 && o.effects == [MoveCursor(f.res.pos)]
    ensures f.res.FindFailed? ==> o.halt == Some(StepFailed)
    ensures o.halt.Some? ==> o.s == f.s
  {
    match f.res
    case FindFailed => HaltWith(f.s, StepFailed)
    case FoundAt(pos) => Goto(f.s, s.pc + 1, [MoveCursor(pos)])
    case NotFound =>
      if IfTag <= act then Goto(f.s, SkipIf(Actions(s.steps), s.pc), [])
      else HaltWith(f.s, TargetNotFound)
  }

  // ---------------------------------------------------------------------
  // Loops
  // ---------------------------------------------------------------------

  function ModeOf(v: Value): LoopMode
  {
    if v == Str("fixed") then Fixed
    else if v == Str("until_image") then UntilImage
    else if v == Str("until_text") then UntilText
    else OtherMode
  }

  /** The default safety valve of a loop. */
  const DefaultMaxIterations: int := 1000

  predicate IsConditionMode(m: LoopMode) { m == UntilImage || m == UntilText }

  /** A finished loop: its frame popped, its name left and its namespace
      deleted. */
  function PopLoop(s: State): (r: State)
    requires |s.loops| > 0
    ensures r.loops == s.loops[..|s.loops| - 1]
    ensures r.cache == LoopCache.ClearCache(LoopCache.Exit(s.cache), s.loops[|s.loops| - 1].id)
    ensures r.steps == s.steps && r.pc == s.pc && r.lastPos == s.lastPos && r.clipboard == s.clipboard
  {
    var top := s.loops[|s.loops| - 1];
    s.(loops := s.loops[..|s.loops| - 1], cache := LoopCache.ClearCache(LoopCache.Exit(s.cache), top.id))
  }

  /** Popping a frame keeps the loop stack and the cache stack in lockstep:
      the popped loop's name occurs nowhere else in the stack, so deleting
      its namespace leaves every remaining namespace owned. */
  lemma {:induction false} PopLoopInv(s: State, pc: nat)
    requires |s.loops| > 0 && pc <= |s.steps|
    ensures Inv(s) ==> Inv(PopLoop(s).(pc := pc))
  {
    if !Inv(s) { return; }
    var n := |s.loops| - 1;
    var r := PopLoop(s).(pc := pc);
    assert r.loops == s.loops[..n];
    assert r.cache.stack == s.cache.stack[..n];
    forall k | 0 <= k < n
      ensures r.cache.stack[k] == r.loops[k].id && r.loops[k].id == Id(r.loops[k].start, k)
      ensures r.loops[k].start < |r.steps|
    {
      assert r.loops[k] == s.loops[k] && r.cache.stack[k] == s.cache.stack[k];
    }
    PopKeepsOwned(s);
  }

  /** The popped loop's name occurs nowhere else in the stack, so deleting
      its namespace leaves every remaining namespace owned. */
  lemma {:induction false} PopKeepsOwned(s: State)
    requires |s.loops| > 0 && Inv(s)
    ensures Owned(PopLoop(s).cache)
  {
    var n := |s.loops| - 1;
    var top := s.loops[n].id;
    var r := PopLoop(s);
    assert r.cache.stack == s.cache.stack[..n];
    assert r.cache.caches == s.cache.caches - {top};
    forall k | 0 <= k < n ensures s.cache.stack[k] != top {
      IdInjective(s.loops[k].start, k, s.loops[n].start, n);
    }
    forall x | x in r.cache.caches ensures x in r.cache.stack {
      var k :| 0 <= k < |s.cache.stack| && s.cache.stack[k] == x;
      assert k != n;
      assert r.cache.stack[k] == x;
    }
  }

  /** The innermost frame replaced. */
  function SetTop(s: State, top: Frame): (r: State)
    requires |s.loops| > 0
    ensures |r.loops| == |s.loops| && r.loops[|r.loops| - 1] == top
    ensures forall k :: 0 <= k < |s.loops| - 1 ==> r.loops[k] == s.loops[k]
    ensures r.steps == s.steps && r.pc == s.pc && r.cache == s.cache
  {
    s.(loops := s.loops[|s.loops| - 1 := top])
  }

  /** LOOP_START reached again by its own loop: the safety valve ends the
      loop; a fixed loop with passes left runs its body once more and one
      without ends; a condition loop runs its body (its count is kept at
      END_LOOP). An ended loop continues after its END_LOOP. */
  function RevisitLoop(s: State): (o: StepOutcome)
    requires s.pc < |s.steps| && |s.loops| > 0
    ensures o.halt.None? && o.effects == [] && o.s.steps == s.steps
    ensures Inv(s) ==> Inv(o.s)
    ensures var top := s.loops[|s.loops| - 1];
      if top.iteration >= top.maxIterations || (top.mode == Fixed && top.remain <= 0) then
        o.s == PopLoop(s).(pc := SkipLoop(Actions(s.steps), s.pc))
      else if top.mode == Fixed then
        o.s == SetTop(s, top.(remain := top.remain - 1, iteration := top.iteration + 1)).(pc := s.pc + 1)
      else o.s == s.(pc := s.pc + 1)
  {
    var top := s.loops[|s.loops| - 1];
    if top.iteration >= top.maxIterations then
      PopLoopInv(s, SkipLoop(Actions(s.steps), s.pc));
      Goto(PopLoop(s), SkipLoop(Actions(s.steps), s.pc), [])
    else if top.mode == Fixed then
      if top.remain > 0 then
        Goto(SetTop(s, top.(remain := top.remain - 1, iteration := top.iteration + 1)), s.pc + 1, [])
      else
        PopLoopInv(s, SkipLoop(Actions(s.steps), s.pc));
        Goto(PopLoop(s), SkipLoop(Actions(s.steps), s.pc), [])
    else Goto(s, s.pc + 1, [])
  }

  /** Pushing a frame named after its position and depth, and entering
      its namespace, keeps the loop stack and the cache stack in lockstep. */
  lemma PushLoopInv(s: State, frame: Frame)
    requires s.pc < |s.steps| && frame.start == s.pc && frame.id == Id(s.pc, |s.loops|)
    ensures Inv(s) ==>
      Inv(s.(loops := s.loops + [frame], cache := LoopCache.Enter(s.cache, frame.id), pc := s.pc + 1))
  {
    if !Inv(s) { return; }
    var r := s.(loops := s.loops + [frame], cache := LoopCache.Enter(s.cache, frame.id), pc := s.pc + 1);
    assert r.cache.stack == s.cache.stack + [frame.id];
    forall k | 0 <= k < |r.loops|
      ensures r.cache.stack[k] == r.loops[k].id && r.loops[k].id == Id(r.loops[k].start, k)
              && r.loops[k].start < |r.steps|
    {
      if k < |s.loops| {
        assert r.loops[k] == s.loops[k] && r.cache.stack[k] == s.cache.stack[k];
      }
    }
    assert Owned(r.cache);
  }

  /** LOOP_START reached from outside: a fixed loop of `times` <= 0 is
      skipped without a frame; otherwise a frame named `L{pc}_{depth}` is
      pushed, its cache namespace entered, and the body starts. */
  function EnterLoop(s: State, p: Params): (o: StepOutcome)
    requires s.pc < |s.steps|
    ensures o.s.steps == s.steps && o.effects == []
    ensures Inv(s) ==> Inv(o.s)
    ensures o.halt.None? && |o.s.loops| == |s.loops| ==>
              && o.s == s.(pc := SkipLoop(Actions(s.steps), s.pc))
              && ModeOf(Get(p, "mode", Str("fixed"))) == Fixed
              && ToInt(Get(p, "times", Int(1))).Some? && ToInt(Get(p, "times", Int(1))).value <= 0
    ensures o.halt.None? && |o.s.loops| != |s.loops| ==>
              && o.s.pc == s.pc + 1
              && |o.s.loops| == |s.loops| + 1 && o.s.loops[..|s.loops|] == s.loops
              && o.s.loops[|s.loops|].start == s.pc && o.s.loops[|s.loops|].iteration == 0
              && o.s.loops[|s.loops|].id == Id(s.pc, |s.loops|)
              && o.s.loops[|s.loops|].mode == ModeOf(Get(p, "mode", Str("fixed")))
              && o.s.cache == LoopCache.Enter(s.cache, Id(s.pc, |s.loops|))
    ensures o.halt.Some? ==> o.s == s && o.halt == Some(StepFailed)
  {
    var mode := ModeOf(Get(p, "mode", Str("fixed")));
    var maxIter := ToInt(Get(p, "max_iterations", Int(DefaultMaxIterations)));
    var count := ToInt(Get(p, "times", Int(1)));
    if maxIter.None? then HaltWith(s, StepFailed)
    else if mode == Fixed && count.None? then HaltWith(s, StepFailed)
    else if mode == Fixed && count.value <= 0 then Goto(s, SkipLoop(Actions(s.steps), s.pc), [])
    else if mode == UntilImage && !FloatParamOk(p, "confidence") then HaltWith(s, StepFailed)
    else
      var remain := if mode == Fixed then count.value else maxIter.value;
      var id := Id(s.pc, |s.loops|);
      var frame := Frame(s.pc, remain, id, mode, 0, maxIter.value);
      PushLoopInv(s, frame);
      Goto(s.(loops := s.loops + [frame], cache := LoopCache.Enter(s.cache, id)), s.pc + 1, [])
  }

  /** A loop entered at a fresh position sees none of the locations its
      enclosing loops cached: its name is new to the cache. */
  lemma NewLoopStartsEmpty(s: State, sig: string)
    requires Inv(s) && s.pc < |s.steps|
    requires forall k :: 0 <= k < |s.loops| ==> s.loops[k].start != s.pc
    ensures LoopCache.Get(LoopCache.Enter(s.cache, Id(s.pc, |s.loops|)), sig) == None
  {
    var id := Id(s.pc, |s.loops|);
    forall k | 0 <= k < |s.loops| ensures s.cache.stack[k] != id {
      IdInjective(s.loops[k].start, k, s.pc, |s.loops|);
    }
    assert id !in s.cache.stack;
    LoopCache.OuterEntriesInvisible(s.cache, id, sig);
  }

  /** `_handle_loop_start`: a revisit only when the innermost loop starts
      at this step. */
  function ExecLoopStart(s: State, p: Params): (o: StepOutcome)
    requires s.pc < |s.steps|
    ensures o.halt.Some? ==> o.s.pc == s.pc && o.s.loops == s.loops
    ensures o.s.steps == s.steps && o.halt.None? ==> o.effects == []
    ensures Inv(s) ==> Inv(o.s)
  {
    if |s.loops| > 0 && s.loops[|s.loops| - 1].start == s.pc then RevisitLoop(s)
    else EnterLoop(s, p)
  }

  /** END_LOOP consults the loop-exit condition only for a condition loop
      whose counted pass is still below the safety valve. */
  predicate ConsultsCondition(s: State)
  {
    |s.loops| > 0 && IsConditionMode(s.loops[|s.loops| - 1].mode)
    && s.loops[|s.loops| - 1].iteration + 1 < s.loops[|s.loops| - 1].maxIterations
  }

  /** END_LOOP: a condition loop counts the pass, ends at the safety valve
      without consulting its condition, ends when the condition is met and
      otherwise goes back to its start; any other loop goes back to its
      start; with no loop it falls through. */
  function ExecEndLoop(s: State, condition: bool): (o: StepOutcome)
    requires s.pc < |s.steps|
    ensures o.halt.None? && o.effects == [] && o.s.steps == s.steps
    ensures Inv(s) ==> Inv(o.s)
    ensures |s.loops| == 0 ==> o.s == s.(pc := s.pc + 1)
    ensures |s.loops| > 0 && !IsConditionMode(s.loops[|s.loops| - 1].mode) ==>
              o.s == s.(pc := s.loops[|s.loops| - 1].start)
    ensures |s.loops| > 0 && IsConditionMode(s.loops[|s.loops| - 1].mode) ==>
              if !ConsultsCondition(s) || condition then o.s == PopLoop(s).(pc := s.pc + 1)
              else
                var top := s.loops[|s.loops| - 1];
                o.s == SetTop(s, top.(iteration := top.iteration + 1)).(pc := top.start)
  {
    if |s.loops| == 0 then Goto(s, s.pc + 1, [])
    else
      var top := s.loops[|s.loops| - 1];
      if IsConditionMode(top.mode) then
        var counted := top.(iteration := top.iteration + 1);
        if counted.iteration >= counted.maxIterations || condition then
          PopLoopInv(s, s.pc + 1);
          Goto(PopLoop(s), s.pc + 1, [])
        else Goto(SetTop(s, counted), top.start, [])
      else Goto(s, top.start, [])
  }

  // ---------------------------------------------------------------------
  // One step
  // ---------------------------------------------------------------------

  /** The actions `execute_steps` dispatches on; anything else falls through. */
  predicate Dispatched(act: string)
  {
    "FIND_" <= act || IfTag <= act
    || act in ["CLICK", "MOVE_TO", "MOVE_OFFSET", "SCROLL", "WAIT", "TYPE_TEXT", "PRESS_KEY",
               "ACTIVATE_WINDOW", ElseTag, LoopStart, EndLoop]
  }

  /** END_IF is only a marker: it is not dispatched. */
  lemma EndIfNotDispatched()
    ensures !Dispatched(EndIf)
  {
    assert EndIf[0] == 'E';
  }

  /** One pass of the `while pc < len(steps)` loop: the stop flag is read
      before the step is fetched; then the action is dispatched, unknown
      actions falling through. */
  function Exec(env: Env, s: State, obs: Obs): (o: StepOutcome)
    requires s.pc < |s.steps|
    ensures Actions(o.s.steps) == Actions(s.steps)
    ensures Inv(s) ==> Inv(o.s)
    ensures o.halt.Some? ==> o.s.pc == s.pc && o.s.loops == s.loops
    ensures obs.stop ==> o == StepOutcome(s, [], Some(Stopped))
  {
    if obs.stop then HaltWith(s, Stopped)
    else
      var act := s.steps[s.pc].action;
      var p := s.steps[s.pc].params;
      if "FIND_" <= act || IfTag <= act then
        assert act[0] == 'F' || act[0] == 'I';
        ExecFind(s, obs.find)
      else if act == "CLICK" then ExecClick(s, p)
      else if act == "MOVE_TO" then ExecMoveTo(s, p)
      else if act == "MOVE_OFFSET" then ExecMoveOffset(s, p)
      else if act == "SCROLL" then ExecScroll(s, p)
      else if act == "WAIT" then ExecWait(s, p, obs.waitStop)
      else if act == "TYPE_TEXT" then ExecTypeText(s, p, obs.systemClipboard)
      else if act == "PRESS_KEY" then ExecPressKey(s, p)
      else if act == "ACTIVATE_WINDOW" then ExecActivateWindow(env, s, p, obs.window)
      else if act == ElseTag then Goto(s, SkipElse(Actions(s.steps), s.pc), [])
      else if act == LoopStart then ExecLoopStart(s, p)
      else if act == EndLoop then ExecEndLoop(s, obs.condition)
      else Goto(s, s.pc + 1, [])
  }

  /** END_IF and every action `execute_steps` does not know fall through to
      the next step. */
  lemma FallThrough(env: Env, s: State, obs: Obs)
    requires s.pc < |s.steps| && !obs.stop && !Dispatched(s.steps[s.pc].action)
    ensures Exec(env, s, obs) == StepOutcome(s.(pc := s.pc + 1), [], None)
  {
  }

  /** ELSE reached from its IF branch continues after the matching END_IF. */
  lemma ElseSkips(env: Env, s: State, obs: Obs)
    requires s.pc < |s.steps| && !obs.stop && s.steps[s.pc].action == ElseTag
    ensures Exec(env, s, obs) == StepOutcome(s.(pc := SkipElse(Actions(s.steps), s.pc)), [], None)
  {
    var act := s.steps[s.pc].action;
    assert act[0] == 'E';
    assert !("FIND_" <= act || IfTag <= act);
    assert act != LoopStart && act != EndLoop;
  }

  /** An IF_ whose target is not found continues after its ELSE or END_IF. */
  lemma UnmetIfSkips(env: Env, s: State, obs: Obs)
    requires s.pc < |s.steps| && !obs.stop && IfTag <= s.steps[s.pc].action
    requires HandleFind(s, obs.find).res.NotFound?
    ensures Exec(env, s, obs).halt.None? && Exec(env, s, obs).s.pc == SkipIf(Actions(s.steps), s.pc)
  {
  }

  /** A FIND_ whose target is not found halts the run. */
  lemma UnfoundFindHalts(env: Env, s: State, obs: Obs)
    requires s.pc < |s.steps| && !obs.stop && "FIND_" <= s.steps[s.pc].action
    requires HandleFind(s, obs.find).res.NotFound?
    ensures Exec(env, s, obs).halt == Some(TargetNotFound)
  {
    assert s.steps[s.pc].action[0] == 'F';
  }

  /** MOVE_OFFSET without a usable last position halts the run. */
  lemma OffsetWithoutPositionHalts(env: Env, s: State, obs: Obs)
    requires s.pc < |s.steps| && !obs.stop && s.steps[s.pc].action == "MOVE_OFFSET"
    requires s.lastPos.None? || s.lastPos.value.x == 0
    ensures Exec(env, s, obs).halt == Some(NoLastPosition)
  {
    assert "MOVE_OFFSET"[0] == 'M';
  }

  /** The loop-exit condition influences a step only where END_LOOP
      consults it. */
  lemma ConditionUnread(env: Env, s: State, obs: Obs)
    requires s.pc < |s.steps|
    requires !(!obs.stop && s.steps[s.pc].action == EndLoop && ConsultsCondition(s))
    ensures Exec(env, s, obs) == Exec(env, s, obs.(condition := !obs.condition))
  {
    if !obs.stop && s.steps[s.pc].action == EndLoop {
      assert EndLoop[0] == 'E';
      assert Exec(env, s, obs) == ExecEndLoop(s, obs.condition);
    }
  }

  /** LOOP_START, WAIT and END_LOOP reach their own handlers. */
  lemma DispatchLoopStart(env: Env, s: State, obs: Obs)
    requires s.pc < |s.steps| && !obs.stop && s.steps[s.pc].action == LoopStart
    ensures Exec(env, s, obs) == ExecLoopStart(s, s.steps[s.pc].params)
  {
    assert LoopStart[0] == 'L';
  }

  lemma DispatchWait(env: Env, s: State, obs: Obs)
    requires s.pc < |s.steps| && !obs.stop && s.steps[s.pc].action == "WAIT"
    ensures Exec(env, s, obs) == ExecWait(s, s.steps[s.pc].params, obs.waitStop)
  {
    assert "WAIT"[0] == 'W';
  }

  lemma DispatchEndLoop(env: Env, s: State, obs: Obs)
    requires s.pc < |s.steps| && !obs.stop && s.steps[s.pc].action == EndLoop
    ensures Exec(env, s, obs) == ExecEndLoop(s, obs.condition)
  {
    assert EndLoop[0] == 'E';
  }

  /** WAIT of no time only moves on. */
  lemma WaitNothing(s: State, p: Params, waitStop: Option<nat>)
    requires s.pc < |s.steps| && "ms" in p && p["ms"] == Int(0)
    ensures ExecWait(s, p, waitStop) == StepOutcome(s.(pc := s.pc + 1), [], None)
  {
    assert RequiredInt(p, "ms") == Some(0);
    assert WaitChunks(0, 0) == [];
  }

  // ---------------------------------------------------------------------
  // A whole run
  // ---------------------------------------------------------------------

  /** How a run ended: the steps ran out, a step halted it, or it is still
      going when the observations run out. */
  datatype Ending = Finished | Halted(reason: HaltReason) | Unfinished

  /** A run's final state, the positions of the steps it executed in order,
      its effects, how often it consulted a loop-exit condition, and how it
      ended. */
  datatype Trace = Trace(s: State, visited: seq<nat>, effects: seq<Effect>, checks: nat, ending: Ending)

  /** The `finally` of `execute_steps`: the loop stack is dropped and the
      cache reset. */
  function Closed(s: State): (r: State)
    ensures Inv(s) ==> Inv(r)
    ensures r.cache == LoopCache.Reset() && r.loops == [] && r.pc == s.pc && r.steps == s.steps
  {
    s.(loops := [], cache := LoopCache.Reset())
  }

  /** `execute_steps` from state `s`, one observation per executed step.
      Whatever way the run ends, the cache is reset; a stop request halts
      before the step is fetched. */
  function Run(env: Env, s: State, obs: seq<Obs>): (t: Trace)
    ensures Actions(t.s.steps) == Actions(s.steps)
    ensures t.ending != Unfinished ==> t.s.cache == LoopCache.Reset() && t.s.loops == []
    ensures t.ending == Finished ==> t.s.pc >= |s.steps|
    ensures t.ending == Unfinished ==> |t.visited| == |obs|
    ensures s.pc < |s.steps| && |obs| > 0 && obs[0].stop ==>
              t.ending == Halted(Stopped) && t.visited == [] && t.effects == []
    decreases |obs|
  {
    if s.pc >= |s.steps| then Trace(Closed(s), [], [], 0, Finished)
    else if |obs| == 0 then Trace(s, [], [], 0, Unfinished)
    else
      var o := Exec(env, s, obs[0]);
      var checked := if !obs[0].stop && s.steps[s.pc].action == EndLoop && ConsultsCondition(s) then 1 else 0;
      if o.halt.Some? then
        Trace(Closed(o.s), if o.halt == Some(Stopped) then [] else [s.pc], o.effects, checked, Halted(o.halt.value))
      else
        var t := Run(env, o.s, obs[1..]);
        Trace(t.s, [s.pc] + t.visited, o.effects + t.effects, checked + t.checks, t.ending)
  }

  /** A run executes at most one step per observation and consults a
      loop-exit condition at most once per step. */
  lemma {:induction false} RunBounds(env: Env, s: State, obs: seq<Obs>)
    ensures var t := Run(env, s, obs);
      |t.visited| <= |obs| && t.checks <= |t.visited|
    decreases |obs|
  {
    if s.pc < |s.steps| && |obs| > 0 {
      var o := Exec(env, s, obs[0]);
      if o.halt.None? {
        RunStep(env, s, obs);
        RunBounds(env, o.s, obs[1..]);
      }
    }
  }

  /** A halt other than a stop request leaves the run at the step that
      halted it. */
  lemma {:induction false} RunHaltsAtLastStep(env: Env, s: State, obs: seq<Obs>)
    ensures var t := Run(env, s, obs);
      t.ending.Halted? && t.ending.reason != Stopped ==> |t.visited| > 0 && t.s.pc == t.visited[|t.visited| - 1]
    decreases |obs|
  {
    if s.pc < |s.steps| && |obs| > 0 {
      var o := Exec(env, s, obs[0]);
      if o.halt.None? {
        RunHaltsAtLastStep(env, o.s, obs[1..]);
      }
    }
  }

  /** A run from a state that keeps the invariant keeps it throughout:
      every step it executes exists, and it finishes exactly at the end. */
  lemma {:induction false} RunKeepsInv(env: Env, s: State, obs: seq<Obs>)
    requires Inv(s)
    ensures Inv(Run(env, s, obs).s)
    ensures forall k :: 0 <= k < |Run(env, s, obs).visited| ==> Run(env, s, obs).visited[k] < |s.steps|
    ensures Run(env, s, obs).ending == Finished ==> Run(env, s, obs).s.pc == |s.steps|
    decreases |obs|
  {
    if s.pc < |s.steps| && |obs| > 0 {
      var o := Exec(env, s, obs[0]);
      if o.halt.None? {
        RunKeepsInv(env, o.s, obs[1..]);
      }
    }
  }

  /** A run that does not halt on its first step is that step followed by
      the run from the state it leaves. */
  lemma RunStep(env: Env, s: State, obs: seq<Obs>)
    requires s.pc < |s.steps| && |obs| > 0 && Exec(env, s, obs[0]).halt.None?
    ensures var o := Exec(env, s, obs[0]);
      var t := Run(env, s, obs);
      var u := Run(env, o.s, obs[1..]);
      && t.visited == [s.pc] + u.visited
      && t.ending == u.ending
      && t.checks == (if s.steps[s.pc].action == EndLoop && ConsultsCondition(s) then 1 else 0) + u.checks
  {
  }

  /** A run that starts past the last step is over. */
  lemma RunPastEnd(env: Env, s: State, obs: seq<Obs>)
    requires s.pc >= |s.steps|
    ensures Run(env, s, obs).visited == [] && Run(env, s, obs).ending == Finished
    ensures Run(env, s, obs).checks == 0
  {
  }

  /** The stop flag only goes from clear to set: once a step saw it set,
      or a WAIT saw it set between chunks, the next loop head sees it. */
  predicate StickyStop(obs: seq<Obs>)
  {
    forall k :: 0 <= k < |obs| - 1 && (obs[k].stop || obs[k].waitStop.Some?) ==> obs[k + 1].stop
  }

  /** With a sticky stop flag, a WAIT that saw the stop request is the
      last step executed: the run halts with Stopped at the next loop head,
      or finishes if the WAIT was the last step. */
  lemma RunStopsAfterWait(env: Env, s: State, obs: seq<Obs>)
    requires StickyStop(obs) && s.pc < |s.steps| && |obs| >= 2
    requires s.steps[s.pc].action == "WAIT" && !obs[0].stop && obs[0].waitStop.Some?
    requires RequiredInt(s.steps[s.pc].params, "ms").Some?
    ensures var t := Run(env, s, obs);
      && t.visited == [s.pc]
      && t.effects == Exec(env, s, obs[0]).effects
      && (t.ending == Halted(Stopped) || (t.ending == Finished && s.pc + 1 == |s.steps|))
  {
    DispatchWait(env, s, obs[0]);
    var o := Exec(env, s, obs[0]);
    assert obs[1..][0].stop;
    RunStep(env, s, obs);
    var u := Run(env, o.s, obs[1..]);
    assert u.visited == [] && u.effects == [];
    assert o.effects + [] == o.effects;
  }

  /** `execute_steps(steps)`: from the initial state. */
  function Execute(env: Env, steps: seq<Step>, lastPos: Option<Point>, clipboard: string, obs: seq<Obs>)
    : (t: Trace)
    ensures Actions(t.s.steps) == Actions(steps)
    ensures t.ending != Unfinished ==> t.s.cache == LoopCache.Reset() && t.s.loops == []
    ensures |steps| == 0 ==> t.ending == Finished && t.visited == []
  {
    Run(env, Initial(steps, lastPos, clipboard), obs)
  }
}
