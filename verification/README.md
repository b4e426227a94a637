# MacroAssistant core in Dafny

MacroAssistant records and replays desktop macros. A macro is a flat list of
steps such as `CLICK`, `WAIT`, `FIND_IMAGE`, `IF_TEXT`, `ELSE`, `LOOP_START`
and `END_LOOP`. The interpreter `execute_steps` walks that list with a
program counter and a stack of loop frames. Screen targets are found by
template matching or OCR, and a loop-scoped cache remembers where targets
were found. The main window edits the step list and binds global run/stop
hotkeys.

This project models that core as immutable datatypes and pure functions
and proves properties of the model:

- **Wrappers, Geometry, Text, Values**: `Option`, points and rectangles,
  and Python's string built-ins on ASCII text: `strip`, `lower`, `upper`,
  `capitalize`, `split`, `join`, `int()` and `str()`. Also JSON step
  parameters with `get`, `int()` and truthiness.
- **LoopIds, LoopCache**:
  - loop names `L{pc}_{depth}`;
  - `LoopCacheManager`, a stack of loop names with one signature→location
    map per loop.
- **Jump**: `_find_jump`, the nesting-aware forward scan that resolves
  `IF_*`/`ELSE`/`END_IF` and `LOOP_START`/`END_LOOP`.
- **Regions, Matcher**:
  - the `cache_box` search region and its write-back;
  - the `smart_screenshot` offset;
  - the `quick_check_cv2` crop window;
  - the best-over-scales selection of `find_image_cv2`, with correlation
    scores as an oracle;
  - the drag-selected rectangle and `parse_region_string`.
- **Ocr**:
  - target normalisation;
  - the word matcher shared by the three backends: a direct substring
    pass, then a merge of at most five adjacent words;
  - the Windows OCR, RapidOCR and Tesseract word extraction;
  - the `auto` cascade and the single-engine mode;
  - `get_available_engines`.
- **Interpreter**:
  - `execute_steps` as a step function `Exec` over an explicit state: the
    steps, pc, loop frames, cache, last position and clipboard;
  - `Run`, which folds `Exec` over a sequence of observations. One
    observation per executed step supplies the stop flag, the recognisers'
    answers and the loop-exit condition.
- **LoopCounts**: how often a loop body runs, and how often a loop-exit
  condition is consulted, on the two canonical three-step loop programs.
- **Hotkeys**:
  - `format_hotkey_display`;
  - the settings dialog's `_validate_hotkey` and `save`;
  - the entry widget's `_get_key_name` and `_display_current_keys`;
  - `_parse_hotkey`, and the held-key press/release machine of the global
    listener.
- **Editor**:
  - the recent-files list;
  - moving a step up or down;
  - the indentation of the step list;
  - the guards that start and stop a run, as a small event machine.

Paths below are relative to the repository root. Where the code's own
names and messages suggest one count and its control flow gives another,
the model follows the control flow:

- A fixed loop reads its pass count as `count = int(p.get('times', 1))`
  (core_engine.py:656). With `times = N >= 1` and safety valve
  `max_iterations = M` its body runs `1 + min(N, max(M, 0))` times, not `N`
  times (`LoopCounts.FixedLoopBodyRuns`). The body runs once on entry, and
  each revisit with passes left runs it again.
- A condition loop's status line reads `最多 {top['max_iterations']} 次`, that
  is, at most `max_iterations` passes (core_engine.py:447). With valve `M`
  it consults its condition at most `max(M - 1, 0)` times, not `M` times
  (`LoopCounts.UntilLoopBounds`). The `END_LOOP` that reaches the valve
  exits without consulting it.

Two more behaviours of the code are kept as written:

- An unknown action falls through to the next step instead of halting
  (`Interpreter.FallThrough`).
- `MOVE_OFFSET` halts when the last x coordinate is 0, because the code
  tests the coordinate's truthiness (`Interpreter.OffsetWithoutPositionHalts`).
  `CLICK` records a position only when both coordinates are non-zero.

## Model

| member | source | states |
|---|---|---|
| Geometry.FloorDiv | core_engine.py:241 | Python's `//` for a positive divisor: the floor quotient, `d*q <= a < d*q + d`. |
| Values.Get | core_engine.py:317 | `p.get(key, default)`: the stored value when the key is present, the default otherwise. |
| Values.ToInt | core_engine.py:340 | `int(v)`: an integer converts to itself; a boolean converts to 1 or 0 by its truth; a string converts as `int(s)` does; a list or null does not convert. |
| Values.ToIntOfNumeral | core_engine.py:340 | A string holding the decimal numeral of `i` converts back to `i`. |
| Text.Lower | gui_utils.py:379 | `lower()` keeps the length and maps every character through the ASCII case map. |
| Text.Capitalize | core_engine.py:99 | `capitalize()` keeps the length and the lower-case form, leaves no lower-case letter first and no upper-case letter after it. |
| Text.CapitalizeUnique | core_engine.py:99 | Those three properties determine `capitalize()`: any string with them is the capitalised input. |
| Text.CapitalizeIdempotent | core_engine.py:99 | Capitalising a capitalised string changes nothing. |
| Text.Strip | gui_utils.py:379 | `strip()` never grows the text, and a non-empty result starts and ends with non-whitespace. |
| Text.StripSlice | gui_utils.py:379 | The stripped text is a contiguous slice of the input, with only whitespace before it and after it. |
| Text.StripAppendSpace | gui_utils.py:42 | One more whitespace character at the end, an information separator included, leaves `strip()` unchanged. |
| Text.RemoveSpaces | ocr_engine.py:150 | `re.sub(r'\s+', '', s)`: no whitespace is left, text without whitespace is unchanged, and the result is empty iff the input is all whitespace. |
| Text.RemoveSpacesConcat | ocr_engine.py:150 | Removal works piecewise on a concatenation, so the result is the input's non-whitespace characters in their order. |
| Text.Split | gui_utils.py:402 | `split('+')` yields at least one part, no part holds the separator, and joining the parts gives the input back. |
| Text.SplitAppend | gui_utils.py:41 | Appending a character other than the separator extends only the last part of `split`. |
| Text.SplitJoin | MacroAssistant.py:1037 | Splitting the join of separator-free parts gives the parts back. |
| Text.NatToString | core_engine.py:663 | `str(n)` is a run of digits whose decimal value is `n`. |
| Text.ParseIntOfIntToString | gui_utils.py:42 | `int(str(i)) == i` for every integer. |
| Text.ParseInt | gui_utils.py:42 | `int()` succeeds only on text with something left after stripping, and an information separator anywhere makes it raise, because `int()` strips only the six classic whitespace characters. |
| Text.RStripChar | core_engine.py:697 | `rstrip(c)` gives a prefix of the input that does not end in `c`, and everything it drops is `c`. |
| Text.ReplaceAll | core_engine.py:382 | `s.replace(pat, rep)` leaves text without the pattern unchanged and brings in no character that is in neither the input nor the replacement. |
| Text.ReplaceAllAfterLiteral | core_engine.py:382 | A literal prefix without the pattern's first character is copied, and the occurrence right after it becomes the replacement. |
| Text.ReplaceAllJoin | core_engine.py:382 | Every occurrence is replaced: pieces free of the pattern's first character, joined by the pattern, come out joined by the replacement. |
| Text.ReplaceAllIdentity | core_engine.py:382 | Replacing a pattern by itself gives the input back. |
| Text.ReplaceCharRemoves | core_engine.py:401 | `replace(' ', '')` leaves no space. |
| Text.JoinIncludes | core_engine.py:401 | Every character of every part appears in the join. |
| LoopIds.Id | core_engine.py:663 | A loop name is non-empty and starts with `L`. |
| LoopIds.ParseIdOfId | core_engine.py:663 | A loop name reads back to the position and depth it was made from. |
| LoopIds.IdInjective | core_engine.py:663 | Distinct (position, depth) pairs give distinct loop names. |
| LoopCache.Reset | core_engine.py:168-170 | `reset()` leaves no namespaces and no active loop. |
| LoopCache.CurrentLoop | core_engine.py:172-173 | The current loop is the top of the stack, and there is none exactly when the stack is empty. |
| LoopCache.Enter | core_engine.py:175-178 | `enter` pushes the name and creates its namespace only if it has none. |
| LoopCache.Exit | core_engine.py:180-186 | `exit` pops one name and deletes only its namespace; on an empty stack nothing changes. |
| LoopCache.ClearCache | core_engine.py:188-190 | `clear_cache` deletes one namespace and leaves the stack and every other namespace alone. |
| LoopCache.Get | core_engine.py:192-194 | Outside any loop `get` returns None; a hit comes from the innermost loop's namespace. |
| LoopCache.Set | core_engine.py:196-201 | Outside any loop `set` changes nothing; otherwise it writes only into the innermost namespace. |
| LoopCache.GetAfterSet | core_engine.py:192-201 | A location stored in the innermost loop is read back. |
| LoopCache.GetAfterSetOther | core_engine.py:192-201 | Storing one signature leaves every other signature's lookup unchanged. |
| LoopCache.OuterEntriesInvisible | core_engine.py:175-194 | After entering a loop with no namespace yet, no outer entry is visible. |
| LoopCache.ExitUndoesEnter | core_engine.py:175-186 | Leaving a freshly entered loop restores the cache, even after entries were stored in it. |
| Jump.Scan | core_engine.py:695-702 | The scan stops past the index it starts from, or at the end of the list, never beyond it. |
| Jump.ScanFirstHit | core_engine.py:695-702 | With the counter equal to the nesting depth, the scan stops one past the first target met at depth 0, and runs to the end when there is none. |
| Jump.FindJump | core_engine.py:693-702 | `_find_jump` returns r <= len, and r > start when start is a valid index. When a target exists, steps[r-1] is the first target at nesting level 0 past start, skipping nested blocks of the same family; otherwise r is len. |
| Jump.NestedIfSkipped | core_engine.py:693-702 | An unmet outer IF skips a whole nested IF/ELSE/END_IF and lands after the outer ELSE. |
| Jump.NestedLoopSkipped | core_engine.py:693-702 | An inner loop's END_LOOP does not end the outer loop. |
| Regions.DecideCacheBox | core_engine.py:497-509 | A value is kept, and yields a search region, iff it is a list of at least four numbers with positive width and height. The region is the box widened by 50 on every side; every other value is dropped. |
| Regions.CacheBoxRegionCoversBox | core_engine.py:501-505 | The padded region starts on screen, no later than the box's on-screen corner, and reaches at least 50 past the box's far corner. |
| Regions.FallbackBox | core_engine.py:525-529 | The box written back after a global hit is four numbers whose midpoint is the found point. |
| Regions.FallbackBoxReused | core_engine.py:497-529 | The written-back box is always accepted by the next search, and its region contains the found point when that point is on screen. |
| Regions.Screenshot | core_engine.py:208-214 | The capture offset is never negative. Without a region it is (0, 0) over the full screen; with an on-screen region it is the region's corner, and the grab ends at the region's far corner. |
| Regions.ScreenshotOfCacheBox | core_engine.py:497-514 | For an accepted cache box the grab is exactly its padded region, and every point of the screenshot maps through the offset into that region. |
| Regions.QuickCheckWindow | core_engine.py:271-275 | The crop window is non-empty, lies inside the screenshot and within half the template plus 15 of the target, and contains the target whenever the target lies in the screenshot. |
| Regions.FinishSelection | gui_utils.py:147-152 | The corners are normalised to x1 <= x2, y1 <= y2; the selection changes only when both extents exceed 5. |
| Regions.FinishSelectionSymmetric | gui_utils.py:147-152 | The selected rectangle does not depend on the drag direction. |
| Regions.ParseSegments | gui_utils.py:42 | A parse yields at most one number per segment, and exactly one per segment when no segment is blank. |
| Regions.NonIntegerSegmentRejected | gui_utils.py:40-45 | One non-blank segment that is not an integer makes the whole parse fail. |
| Regions.ParseRegionString | gui_utils.py:39-45 | Empty input gives None, and a result is exactly four integers. |
| Regions.FullWidthCommaAsComma | gui_utils.py:41 | A full-width comma `，` separates exactly as `,` does. |
| Regions.PrependSegment | gui_utils.py:42 | A blank segment adds no number, a non-blank one adds exactly one, and a failed rest stays failed. |
| Regions.ParseSegmentsConcat | gui_utils.py:42 | Segments are read independently: a concatenation gives the two lists of numbers concatenated, and fails iff either side fails. |
| Regions.BlankSegmentSkipped | gui_utils.py:42 | A blank segment anywhere in the list changes nothing. |
| Regions.NumeralsAroundBlank | gui_utils.py:42 | Numerals on both sides of a blank segment read as the numbers of both sides. |
| Regions.MixedCommasParse | gui_utils.py:39-45 | `1，2,,3,4` parses as the region 1, 2, 3, 4. |
| Regions.ParseFormatRegion | gui_utils.py:39-45 | Four integers written as `x1,y1,x2,y2` parse back to themselves. |
| Regions.TrailingSpaceIgnored | gui_utils.py:39-45 | Any whitespace character after the text, an information separator included, leaves the parsed region unchanged. |
| Regions.LastSegmentSpace | gui_utils.py:42 | Whitespace appended to the last segment is stripped with it and changes no number. |
| Regions.SameStripSameSegment | gui_utils.py:42 | A segment is read only through its stripped text. |
| Regions.SeparatorAfterRegion | gui_utils.py:39-45 | A formatted region followed by the separator 0x1C still parses to its four numbers, as `strip()` removes it. |
| Matcher.MatchOf | core_engine.py:239-243 | The reported centre lies inside the matched template's box, shifted by the screenshot offset. |
| Matcher.FindImage | core_engine.py:226-246 | A result reaches the threshold and is the first usable scale with its score; it is the best score, or the scan stopped early at 0.95 or above. No result iff no usable scale reaches the threshold. When the scan stops early at a scale, that scale's match is the result. |
| Matcher.Scan | core_engine.py:226-240 | The scan loop ends at the last scale or right after the early stop, with the best score so far, the first scale that reached it, and no earlier scale where the scan would have stopped. |
| Matcher.ScanStep | core_engine.py:232-238 | One more scale keeps that state: a usable scale that beats the best becomes the best, and the scan stops exactly when this is the first scale where the best reaches both 0.95 and the threshold. |
| Matcher.NativeScaleExits | core_engine.py:237-238 | A usable native scale scoring at least 0.95 and the threshold stops the scan there, whatever later scales score. |
| Matcher.QuickCheckFrom | core_engine.py:267-289 | The scan from a scale on succeeds iff some later scale's template loads, its crop window is non-empty, matching does not raise and the crop scores at least the threshold, and no scale before it raised. |
| Matcher.QuickCheck | core_engine.py:248-289 | `quick_check_cv2` succeeds iff one of the scales 1.0, 0.9, 1.1 hits before any of them raises `cv2.error`. |
| Matcher.NativeRaiseFails | core_engine.py:279-289 | A raise at the native scale fails the re-check, whatever the later scales would score. |
| Matcher.CropNarrowerButTallerRaises | core_engine.py:276-279 | A crop narrower but taller than the template makes matching raise. |
| Ocr.Normalise | ocr_engine.py:150 | The normal form has no whitespace and no upper-case letter, and is empty iff the text is all whitespace. |
| Ocr.NormaliseTarget | ocr_engine.py:149-151 | A search key exists iff the target is a string with a non-whitespace character, and it is then the non-empty normal form. |
| Ocr.DirectPass | ocr_engine.py:237-242 | The first word, in order, whose text contains the target. |
| Ocr.MergeEnd | ocr_engine.py:249-256 | At one start, the first end whose merged text equals the target. |
| Ocr.MergePass | ocr_engine.py:245-257 | The first start, and for it the first end, whose merge of two to five words equals the target exactly, starting only at a word that is a prefix of the target. |
| Ocr.FloorAverageBetween | ocr_engine.py:253-254 | The floor average of a non-empty list lies between its minimum and its maximum. |
| Ocr.AverageCentreWithin | ocr_engine.py:253-254 | The averaged centre of merged words lies between the least and the greatest centre, in both axes. |
| Ocr.MatchWords | ocr_engine.py:234-257 | A result carries the full recognised text. |
| Ocr.MatchWordsDirect | ocr_engine.py:237-242 | The first containing word wins, at the offset plus its box centre. |
| Ocr.MatchWordsMerge | ocr_engine.py:244-256 | With no containing word, the first merge wins, at the offset plus the floor average of the merged centres. |
| Ocr.FirstMergeFound | ocr_engine.py:245-256 | The merge pass finds the first merge there is. |
| Ocr.MatchWordsNone | ocr_engine.py:237-257 | With neither a containing word nor a merge, there is no result. |
| Ocr.WinKept | ocr_engine.py:227-232 | Exactly the words with both a text and a bounding rectangle are kept: every kept word is such a word of the input, and every such word is kept. |
| Ocr.WinKeptConcat | ocr_engine.py:227-232 | The filter works piecewise on a concatenation, so kept words stay in the recogniser's order. |
| Ocr.WinFind | ocr_engine.py:219-258 | A non-dictionary reply or no usable word gives no result; a result carries the space-join of the kept words' original texts. |
| Ocr.BoundingBox | ocr_engine.py:295-300 | A polygon becomes its smallest enclosing box: min ≤ max on both axes, and every bound is attained by a corner. |
| Ocr.BoxCentre | ocr_engine.py:309 | The floor midpoint of a box lies inside it. |
| Ocr.RapidWords | ocr_engine.py:293-303 | The conversion succeeds iff no list box lacks corners; each word is some usable item's normalised text at the centre of its bounding box. |
| Ocr.RapidWordsConcat | ocr_engine.py:293-303 | The conversion works piecewise: it fails iff a part fails, and otherwise the words come in item order. |
| Ocr.RapidWordsOne | ocr_engine.py:293-303 | One item: a non-list box is skipped, a box without corners fails, any other box gives its word. |
| Ocr.RapidFind | ocr_engine.py:260-329 | No recognised text, or a box without corners, gives no result; a result carries the space-join of every recognised text. |
| Ocr.TessKept | ocr_engine.py:356-363 | Exactly the rows with confidence above 30 and non-blank text are kept: every kept row is such a row of the table, and every such row is kept. |
| Ocr.TessKeptConcat | ocr_engine.py:356-363 | The filter works piecewise on a concatenation, so kept rows stay in table order. |
| Ocr.TessKeptAll | ocr_engine.py:356-363 | A table whose rows all pass the filter is kept whole and in order. |
| Ocr.TessBox | ocr_engine.py:360 | The left and right edges of a row's box are the upscaled edges divided by 2, rounding down. |
| Ocr.TessPass | ocr_engine.py:352-390 | A failed invocation is a failed pass; a hit carries that mode's own join of its kept rows. |
| Ocr.FirstHit | ocr_engine.py:351-391 | The search over the modes' outcomes hits iff some mode hits after only misses, and then returns that hit. |
| Ocr.HitAtPastMiss | ocr_engine.py:351-391 | A miss passes the search on to the next mode unchanged. |
| Ocr.TessOutcomes | ocr_engine.py:351 | The modes are tried in the order 6, 11, 3. |
| Ocr.TessFind | ocr_engine.py:331-394 | Tesseract finds iff some mode hits after only misses, and the first such hit is the result. |
| Ocr.Attempt | ocr_engine.py:163-212 | An engine that is absent, or has no code for the language, gives nothing; otherwise its own backend decides. |
| Ocr.AutoOutcomes | ocr_engine.py:163-187 | The `auto` attempts are winocr, rapidocr and tesseract, in that order. |
| Ocr.FindTextLocation | ocr_engine.py:140-216 | No search key, or an unknown engine name, gives None; `auto` returns the first engine's result in the cascade; a named engine returns only its own attempt. |
| Ocr.ExplicitEngineAlone | ocr_engine.py:189-212 | With a named engine, the other recognisers' presence and readings do not affect the result. |
| Ocr.AutoSkipsAbsent | ocr_engine.py:163-187 | In `auto` mode, an absent recogniser's readings do not affect the result. |
| Ocr.ListingOf | ocr_engine.py:399-410 | An engine is listed once, under its own name, exactly when it is present. |
| Ocr.AvailableEngines | ocr_engine.py:396-415 | The listing is never empty; it holds `none` iff no engine is present, holds each engine iff it is present, and keeps the order winocr, rapidocr, tesseract. |
| Interpreter.Actions | core_engine.py:317 | The actions of the steps, position by position. |
| Interpreter.Initial | core_engine.py:296-309 | A run starts at pc 0 with no loops, a reset cache, and the invariant holding. |
| Interpreter.ExecClick | core_engine.py:338-346 | A click succeeds iff the button is a string and clicks, interval, duration and any given coordinate convert; it then clicks with the lower-cased button, the click count and exactly the given coordinates, moves on by one step, and remembers the position iff both coordinates are given and non-zero. A failure halts with the state unchanged. |
| Interpreter.ExecMoveTo | core_engine.py:348-351 | Moving succeeds iff both coordinates and the duration convert, and then remembers the target position. |
| Interpreter.ExecMoveOffset | core_engine.py:353-357 | Without a last position, or with last x equal to 0, the run halts; otherwise the step succeeds iff both offsets and the duration convert, moves by the offsets, and shifts the remembered position by them. |
| Interpreter.ExecScroll | core_engine.py:359-362 | Scrolling succeeds iff the amount converts and, when both coordinates are given, they convert; it then moves to the coordinates iff both are given and scrolls by the amount, changing nothing but pc. |
| Interpreter.WaitChunks | core_engine.py:366-368 | The chunks are each between 1 and 100 ms and add up to the remaining time. |
| Interpreter.ExecWait | core_engine.py:364-368 | `WAIT` succeeds iff `ms` converts, sleeps in chunks of at most 100 ms that add up to `ms`, and stops sleeping at the chunk where a stop is seen. |
| Interpreter.WaitNothing | core_engine.py:364-368 | A wait of 0 ms only moves on. |
| Interpreter.ExecTypeText | core_engine.py:370-398 | Typing succeeds iff there is a text and the interval is absent or numeric; the text typed is the input with every placeholder replaced by the clipboard variable, or by the system clipboard when that is empty; a positive interval writes it key by key, otherwise it is pasted. |
| Interpreter.TypeTextFillsEveryPlaceholder | core_engine.py:373-398 | For any text made of literal pieces without `{` joined by `{CLIPBOARD}`, the typed text is the same pieces joined by the clipboard text. |
| Interpreter.TypeTextFillsPlaceholder | core_engine.py:373-398 | `id={CLIPBOARD}` without an interval pastes `id=` followed by the clipboard text. |
| Interpreter.ExecPressKey | core_engine.py:400-402 | Pressing succeeds iff the key parameter is absent or a string; the keys pressed are never none, hold no `+`, and joined by `+` give the lower-cased key text with its spaces removed. |
| Interpreter.PressKeyKeysPlain | core_engine.py:401 | No key pressed holds a space or an upper-case letter. |
| Interpreter.ExecActivateWindow | core_engine.py:404-427 | Activation succeeds iff the window library is present, the title is truthy and a window is found; otherwise the run halts. |
| Interpreter.DoFind | core_engine.py:540-610 | An image search fails without a path or with a bad confidence; a text search fails without text; a found position is the recogniser's; the clipboard changes only on a text hit that asks for it. |
| Interpreter.Record | core_engine.py:531-534 | A found position is remembered and stored in the innermost loop's namespace. |
| Interpreter.Signature | core_engine.py:512 | The signature starts with the action and an underscore, followed by the rendered path when the step has one. |
| Interpreter.SignatureIgnoresCacheBox | core_engine.py:497-512 | Rewriting or deleting the cache box leaves the signature unchanged, so a step's cached location stays reachable. |
| Interpreter.HandleFind | core_engine.py:493-538 | Target resolution keeps the step list's actions, pc and loops; the cache changes only by storing the found position; the last position becomes the found position on a hit and is unchanged otherwise. |
| Interpreter.HandleFindResolves | core_engine.py:493-538 | A re-confirmed cached location wins; otherwise the first search's position; otherwise, only after a miss inside a search region, the global search's position, which becomes the new cache box. The step finds iff one of these hits, and a rejected cache box is deleted. |
| Interpreter.FallbackOnlyAfterRegionMiss | core_engine.py:521-529 | The global search's answer matters only after a region search missed. |
| Interpreter.CacheHitSkipsSearch | core_engine.py:514-517 | A re-confirmed cached location makes both searches irrelevant. |
| Interpreter.HandleFindInv | core_engine.py:493-538 | Target resolution keeps the interpreter invariant. |
| Interpreter.SetKeepsOwned | core_engine.py:196-201 | Storing a location creates at most the innermost loop's namespace. |
| Interpreter.ExecFind | core_engine.py:324-336 | An unmet `IF_*` jumps past its ELSE or END_IF; an unfound `FIND_*` halts; a found target moves the cursor there. |
| Interpreter.ExecFound | core_engine.py:326-336 | The continuation of a resolved target: skip, halt, or move on with a cursor move. |
| Interpreter.PopLoop | core_engine.py:451-453 | Ending a loop pops its frame, exits the cache and clears that loop's namespace. |
| Interpreter.PopLoopInv | core_engine.py:451-453 | Popping a frame keeps the loop stack and the cache stack in lockstep. |
| Interpreter.PopKeepsOwned | core_engine.py:451-453 | After the pop and the namespace deletion, every remaining namespace belongs to a loop still on the stack. |
| Interpreter.PushLoopInv | core_engine.py:663-684 | Pushing a frame named after its position and depth, and entering it in the cache, keeps the lockstep. |
| Interpreter.RevisitLoop | core_engine.py:618-648 | At the valve or with no passes left, a fixed loop's revisit pops the frame and jumps past END_LOOP; with passes left it counts one and enters the body; a condition loop enters the body. |
| Interpreter.EnterLoop | core_engine.py:650-691 | A fixed loop with `times <= 0` is skipped without a frame; otherwise a frame named `L{pc}_{depth}` is pushed with nothing counted. |
| Interpreter.NewLoopStartsEmpty | core_engine.py:663-684 | A loop entered at a fresh position sees none of the outer loops' cached locations. |
| Interpreter.ExecLoopStart | core_engine.py:613-691 | `LOOP_START` keeps the invariant and the steps, emits no effect, and a halt leaves pc and loops alone. |
| Interpreter.ExecEndLoop | core_engine.py:435-484 | A condition loop exits at the valve without a check or on a met condition, and otherwise counts the pass and goes back; a fixed loop goes back; without a loop END_LOOP moves on. |
| Interpreter.Exec | core_engine.py:311-488 | One pass of the main loop: a stop request halts before the step is fetched; the invariant is kept; a halt leaves pc and loops alone. |
| Interpreter.EndIfNotDispatched | core_engine.py:324-484 | END_IF has no branch of its own. |
| Interpreter.FallThrough | core_engine.py:319-488 | END_IF and any unknown action move on to pc+1 with no effect. |
| Interpreter.ElseSkips | core_engine.py:429-430 | ELSE continues after its matching END_IF. |
| Interpreter.UnmetIfSkips | core_engine.py:326-329 | An `IF_*` whose target is not found continues after its ELSE or END_IF. |
| Interpreter.UnfoundFindHalts | core_engine.py:330 | A `FIND_*` whose target is not found halts the run. |
| Interpreter.OffsetWithoutPositionHalts | core_engine.py:354 | `MOVE_OFFSET` without a usable last position halts the run. |
| Interpreter.ConditionUnread | core_engine.py:442-478 | The loop-exit condition is read only at the END_LOOP of a condition loop below its valve. |
| Interpreter.DispatchLoopStart | core_engine.py:432-433 | LOOP_START goes to its handler. |
| Interpreter.DispatchWait | core_engine.py:364-368 | WAIT goes to its handler. |
| Interpreter.DispatchEndLoop | core_engine.py:435-484 | END_LOOP goes to its handler. |
| Interpreter.Closed | core_engine.py:489-490 | The `finally` drops the loops and resets the cache. |
| Interpreter.Run | core_engine.py:294-491 | Every ending except running out of observations resets the cache and drops the loops; a finished run stops at or past the end; a stop request before the first step halts with nothing done. |
| Interpreter.RunBounds | core_engine.py:311-488 | At most one step per observation, and at most one condition check per step. |
| Interpreter.RunHaltsAtLastStep | core_engine.py:311-488 | A halt other than a stop request leaves the run at the step that halted it. |
| Interpreter.RunKeepsInv | core_engine.py:311-491 | The invariant holds throughout, every executed position exists, and a finished run ends exactly at the end. |
| Interpreter.RunStep | core_engine.py:311-488 | A run that does not halt on its first step is that step followed by the rest. |
| Interpreter.RunPastEnd | core_engine.py:311 | A run past the last step is over with nothing executed. |
| Interpreter.RunStopsAfterWait | core_engine.py:311-368 | With a stop flag that stays set once raised, a WAIT that saw the stop is the last step executed: the run halts as stopped at the next loop head, or finishes when the WAIT was the last step. |
| Interpreter.Execute | core_engine.py:294-491 | `execute_steps`: an empty macro finishes at once; every ending except running out of observations resets the cache. |
| LoopCounts.RemainingIsMin | core_engine.py:623-639 | From a revisit with `r` passes left and `i` counted, the fixed loop makes `min(r, m - i)` more passes, and none at the valve or with none left. |
| LoopCounts.FixedLoopBodyRuns | core_engine.py:623-691 | A fixed loop of `n >= 1` passes under valve `m` runs its body exactly `1 + min(n, max(m, 0))` times and never consults a condition. |
| LoopCounts.FixedLoopSkipped | core_engine.py:655-658 | A fixed loop of `times <= 0` never runs its body. |
| LoopCounts.UntilLoopBounds | core_engine.py:442-478 | A condition loop under valve `m` runs its body at most `max(m, 1)` times and consults its condition at most `max(m - 1, 0)` times, exactly so when the condition never holds. |
| Hotkeys.DisplayPart | core_engine.py:97-101 | A part is kept up to case; a modifier part shows no lower-case first letter and no upper-case letter after it, any other part shows no lower-case letter; no `+` is introduced. |
| Hotkeys.FormatHotkeyDisplay | core_engine.py:91-102 | The displayed hotkey has the stored one's length and lower-case form, so only letter case changes; an empty text or one holding the recording placeholder is shown as is; otherwise its `+`-parts are exactly the stored parts, each displayed by `DisplayPart`. |
| Hotkeys.CtrlDisplayParts | core_engine.py:97-101 | `ctrl` and a lower-case non-modifier key display as `Ctrl` and the key upper-cased. |
| Hotkeys.CtrlKeyDisplay | core_engine.py:91-102 | `ctrl+k`, for a clean non-modifier key `k`, is displayed as `Ctrl+` followed by `k` in upper case. |
| Hotkeys.DisplayCtrlA | core_engine.py:96-102 | `ctrl+a` is displayed as `Ctrl+A`: the modifier is capitalised and the key upper-cased. |
| Hotkeys.DefaultRunDisplay | core_engine.py:91-102 | The default run hotkey `ctrl+f10` is displayed as `Ctrl+F10`. |
| Hotkeys.ValidateHotkey | gui_utils.py:401-424 | Without a `+`, a hotkey is valid iff it names F1 to F12. With a `+` it has at least two parts and is valid iff `PartsValid` holds of them; a valid one has every part but the last stripping to a modifier. |
| Hotkeys.ValidateParts | gui_utils.py:411-424 | Any two or more `+`-free parts joined by `+` are valid iff every part but the last strips to a modifier and the last strips to a letter, digit, f1–f12 or named key. |
| Hotkeys.KeyBeforeLastRefused | gui_utils.py:416-420 | A joined hotkey with a non-modifier anywhere before the last part is refused. |
| Hotkeys.ValidateSinglePart | gui_utils.py:405-409 | Without a `+`, a hotkey is valid iff it is `f` followed by digits with value 1 to 12. |
| Hotkeys.LoneLeadingZeroValid | gui_utils.py:405-409 | A lone `f01` is valid. |
| Hotkeys.JoinedLeadingZeroInvalid | gui_utils.py:411-424 | `ctrl+f01` is invalid: a multi-part hotkey must spell the function key without a leading zero. |
| Hotkeys.ValidateJoined | gui_utils.py:411-424 | Modifiers followed by a letter, digit, f1–f12 or named key, joined by `+`, are valid. |
| Hotkeys.Save | gui_utils.py:378-399 | The pair is saved iff both stripped, lower-cased texts are non-empty, free of the recording placeholder, different and valid; a saved pair is exactly those texts. |
| Hotkeys.NormalFormStable | gui_utils.py:379-380 | The stripped, lower-cased form is its own stripped, lower-cased form. |
| Hotkeys.SaveIdempotent | gui_utils.py:378-399 | Saving a saved pair again saves it unchanged. |
| Hotkeys.ParseHotkey | MacroAssistant.py:1034-1040 | No parsed name holds a `+`, and a hotkey without `+` parses to no modifiers and its stripped, lower-cased text as the key. |
| Hotkeys.ParsePair | MacroAssistant.py:1035-1040 | A clean modifier and key joined by `+` parse to that modifier alone and that key. |
| Hotkeys.ParseJoined | MacroAssistant.py:1035-1040 | Parsing clean parts joined by `+` gives the last part as the key and the set of the others as the modifiers. |
| Hotkeys.SpecialKeyName | gui_utils.py:287 | Every name the special key table yields is one of its sixteen names, each made of lower-case letters and underscores. |
| Hotkeys.KeyName | gui_utils.py:279-287 | A key name is a modifier, a special key's name, `f` then digits, or one lower-case letter or digit; it is always lower case. |
| Hotkeys.KeyNameClean | gui_utils.py:279-287 | Every key name survives joining and parsing unchanged. |
| Hotkeys.Filter | gui_utils.py:273 | The filtered modifiers are exactly those held. |
| Hotkeys.HeldModifiersOrdered | gui_utils.py:273 | The recorded modifiers are exactly the held ones, in the fixed order ctrl, alt, shift, cmd. |
| Hotkeys.FirstNonModifier | gui_utils.py:274 | The key is the first held name, in iteration order, that is not a modifier. |
| Hotkeys.RecordedString | gui_utils.py:272-275 | The recorded string is empty iff no modifier and no non-empty key is held. |
| Hotkeys.DisplayCurrentKeys | gui_utils.py:272-277 | The text is the display form of the recorded hotkey; the stored string changes only on the final event, only when a non-modifier key is held, and then becomes the recorded hotkey. |
| Hotkeys.RecordedParses | gui_utils.py:272-277 | A recorded hotkey parses back to the held modifiers and the key. |
| Hotkeys.RecordedValid | gui_utils.py:272-277 | A recording with a modifier held and a valid key passes validation. |
| Hotkeys.SaveDefaults | MacroAssistant.py:41-42 | The dialog accepts the default pair unchanged. |
| Hotkeys.ParseDefaults | MacroAssistant.py:41-42 | The defaults parse to `ctrl` with `f10` and `ctrl` with `f11`. |
| Hotkeys.CtrlFInjective | MacroAssistant.py:41-42 | Different function keys give different `ctrl+fN` hotkeys. |
| Hotkeys.Normalise | MacroAssistant.py:996-999 | Normalisation changes a name only into a modifier. |
| Hotkeys.OnHotkeyPress | MacroAssistant.py:990-1010 | A hotkey fires only on a newly held key that is its key, with all its modifiers held; the held set grows by that key only. |
| Hotkeys.PressHeldIgnored | MacroAssistant.py:1001 | Pressing a held key changes nothing and fires nothing. |
| Hotkeys.PressNewKey | MacroAssistant.py:1001-1010 | A new key fires exactly the hotkeys it completes. |
| Hotkeys.OnHotkeyRelease | MacroAssistant.py:1016-1028 | A release removes the normalised key from the held set and changes nothing else. |
| Hotkeys.ReleaseUndoesPress | MacroAssistant.py:990-1028 | Releasing a key that a press added restores the held set. |
| Hotkeys.DefaultRunFires | MacroAssistant.py:990-1010 | Pressing left ctrl fires nothing; pressing F10 while ctrl is held fires the default run hotkey and not the stop hotkey. |
| Editor.AddToRecentFiles | MacroAssistant.py:1153-1157 | The opened file comes first, and the list holds at most 5 entries; its length is fixed by whether the file was already listed. |
| Editor.RecentKeepsOrder | MacroAssistant.py:1154-1157 | The entries after the file are a prefix of the old list without the file, in their old order. |
| Editor.RecentNoDuplicates | MacroAssistant.py:1154-1157 | On a list without repeats, the file is the only copy, and the list has no repeats. |
| Editor.RecentIdempotent | MacroAssistant.py:1153-1157 | Opening the most recent file again leaves the list unchanged. |
| Editor.MoveSwaps | MacroAssistant.py:949 | Popping a step and inserting it next door swaps the two neighbours and leaves every other step in place. |
| Editor.MoveStep | MacroAssistant.py:943-953 | A move keeps the length, changes the steps only with a selection, and leaves a valid selection; a changed selection holds the neighbour's index and otherwise only the edited row. |
| Editor.MovePermutes | MacroAssistant.py:943-953 | A move only reorders the steps. |
| Editor.MoveKeepsEditedStep | MacroAssistant.py:950-951 | The editing index follows the edited step. |
| Editor.MoveDownUp | MacroAssistant.py:943-953 | Moving a step down and then up, while no other step is edited, restores the list and the editing index, and leaves that step alone selected. |
| Editor.MoveDownUpWhileEditingFirst | MacroAssistant.py:943-953 | While the first of four steps is edited, moving the third down selects rows 0 and 3, so moving up acts on row 0, which cannot move, and the list stays changed. |
| Editor.IndentLevels | MacroAssistant.py:897-923 | The indentation loop with its block stack computes, for every step, one less than the open-block depth for ELSE/END_IF/END_LOOP (never below 0) and the depth otherwise. |
| Editor.OpenerIndentsNext | MacroAssistant.py:903-913 | The step after a block opener is indented one level deeper, unless it closes or switches the block. |
| Editor.CloserAlignsNext | MacroAssistant.py:903-913 | The step after a block closer lines up with the closer. |
| Editor.ElseAlignsWithIf | MacroAssistant.py:903-913 | An ELSE lines up with the IF directly before it. |
| Editor.RunMacroAsWritten | MacroAssistant.py:1058-1072 | A run request takes effect iff no run is marked as running, there are steps, and it comes from the hotkey or is confirmed; it then schedules one more start. |
| Editor.RunMacro | MacroAssistant.py:1058-1072 | The same guard, also refusing while a start is already scheduled; a request that takes effect schedules the only start. |
| Editor.SafeRunMacro | MacroAssistant.py:1048-1050 | The run hotkey schedules one more start iff no run is marked as running, no step is edited, there are steps and, with the corrected guard, no start is scheduled. |
| Editor.StartMacroThread | MacroAssistant.py:1074-1078 | A due start marks the run as running with a fresh context whose stop flag is clear. |
| Editor.MacroComplete | MacroAssistant.py:1088-1090 | A finished thread clears the running mark and the context. |
| Editor.SafeStopMacro | MacroAssistant.py:1052-1056 | Stop raises the stop flag only while running with a context, and changes nothing else. |
| Editor.StartNeedsIdle | MacroAssistant.py:1048-1060 | A start is scheduled only from an idle window with steps, and from the hotkey only while no step is edited. |
| Editor.StopOnlyWhileRunning | MacroAssistant.py:1052-1056 | Stop has an effect only on a running macro. |
| Editor.ApplyKeepsOneRun | MacroAssistant.py:1048-1090 | With the corrected guard, every event keeps at most one run in flight. |
| Editor.ApplyAllKeepsOneRun | MacroAssistant.py:1048-1090 | With the corrected guard, at most one run is in flight after any sequence of events. |
| Editor.DoubleStartAsWritten | MacroAssistant.py:1058-1078 | As written, two run hotkeys within the start delay make two macro threads run at once. |
| Editor.UnstoppableAsWritten | MacroAssistant.py:1052-1090 | As written, once the first of two threads ends, the stop hotkey no longer reaches the thread still running. |

## Left out

- Widgets, dialogs, theming, menus, the status queue and message boxes are
  UI and are not modelled. The confirmation dialog of `run_macro` is a
  boolean parameter.
- Threads and timers are not modelled as concurrency. This covers the
  hotkey listener thread, the macro thread, the OCR preload thread, the
  lazy engine singletons, and the `after` scheduling. The run guards are an
  event machine whose events are the scheduled callbacks.
- Win32 hotkey registration and conflict checks, and the pynput
  virtual-key mapping `_get_key_name_from_key`, are foreign calls. The
  listener's key name is a parameter.
- Correlation scores, template loading and resizing, and image
  preprocessing are oracles. Scores are abstract reals and a template's
  size per scale is a parameter.
- The OCR backends, `_check_loop_condition`, window lookup, the system
  clipboard and the screen are oracles. They are supplied per step by the
  observation record.
- `pyautogui`, `pyperclip`, sleeps and file persistence are I/O. Their
  calls appear as effect values (moves, clicks, sleeps, typed text).
- `os.path.abspath` in `add_to_recent_files` is left out; paths are taken
  as already absolute.
- `PerformanceMonitor`, `OCRPerformanceStats` and the `re.search`
  extraction of `_do_find` are left out. The extraction's outcome is a
  parameter.
- Text functions are ASCII-only: `strip`, `lower`, `isspace`, `isalnum` and
  `isdigit` follow ASCII rules. Python's Unicode tables are not modelled.
  Whitespace is what `isspace`, `strip()` and `\s` take on ASCII: space,
  tab, line feed, carriage return, 0x0B, 0x0C and the information
  separators 0x1C-0x1F. `int()` and `float()` strip only the first six, so
  they reject a separator anywhere.
- Interpreter.ExecClick, Interpreter.ExecTypeText: foreign calls are
  assumed not to raise. With a hand-edited macro file, an unknown `button`
  makes `pyautogui.click` raise, which ends the run (core_engine.py:486-487).
  The model's click succeeds instead. Likewise, a list-valued `text` does
  not end the run in the source (core_engine.py:385-398). With no interval,
  `pyperclip.copy` fails three times silently and the old clipboard is
  pasted. With an interval, `pyautogui.write` types the items. The model
  halts that step with `StepFailed` instead.
- Text.ParseInt: `int()` on a string accepts surrounding whitespace, one
  sign and ASCII digits. Python also accepts underscores between digits
  (`1_0`); the model rejects them, so such a parameter halts the step.
- Values.ParseDecimal: `float()` on a string accepts surrounding
  whitespace, one sign, and digits with at most one decimal point. Python
  also accepts exponents (`1e3`), `inf`, `nan` and underscores; the model
  rejects them, so such a parameter halts the step. Only success and the
  sign of the value are used, never the value itself.
- Values.Value: JSON numbers with a fraction are not represented. A macro
  file loaded with `json.load` (MacroAssistant.py:1147) may hold `"x":
  100.5`, which `int()` truncates to 100 (core_engine.py:343), or a
  numeric `"confidence": 0.9`. The model has integers, strings, booleans,
  integer lists and null only; the editor writes its parameters as
  strings, and a decimal string is parsed by `Values.ParseDecimal`.
- Ocr.BoxCentre: OCR boxes are integers. A recogniser that returns float
  coordinates makes `//` give float centres (ocr_engine.py:240, 309);
  the model floor-divides integers only.
- Ocr.RapidWords: the three result shapes RapidOCR may return (a tuple,
  a list, or an object with `boxes`/`txts`/`dt_boxes`/`rec_res`,
  ocr_engine.py:265-289) are folded into one sequence of items, each with
  a text and an optional box. The `zip` at ocr_engine.py:293 stops at the
  shorter of the box and text lists; the model pairs every text with its
  own optional box, so `full_text` joins every text while only texts with
  a box become words.
- Hotkeys.FormatHotkeyDisplay: the `except` branch, which upper-cases the
  whole string, is not modelled, because nothing in the `try` can raise on
  a string.
- Hotkeys.KeyName: models the entry widget of `gui_utils.py`. The copy in
  `MacroAssistant.py:168-185` tests `a-z`/`0-9` instead of `isalnum`, which
  agrees on lower-cased ASCII names. Its `_format_hotkey_string` shows a
  placeholder when no key is held, which is not modelled.
- Hotkeys.DisplayCurrentKeys: the held keys are a Python set. Its
  iteration order is a parameter, a sequence without repeats.
- Hotkeys.OnHotkeyPress: takes the run and stop hotkeys already parsed,
  because the source re-parses the stored strings on every press.
  `Hotkeys.ParseJoined` relates the parsed form to the string.
- The `HotkeySettingsDialog` copy in `MacroAssistant.py:270-316` is the
  same code as in `gui_utils.py:378-424`. It is modelled once.
- Interpreter.Run: one observation per executed step. A run longer than
  the observations supplied ends as `Unfinished`, so endless loops have no
  final state. The stop flag is read from each observation independently,
  so `Run` alone does not promise that a stop, once seen, stays seen; the
  `StickyStop` predicate states that requirement and
  `Interpreter.RunStopsAfterWait` assumes it.
- LoopCounts.FixedLoopBodyRuns: the pass count is proved for the loop
  program whose body is a single `WAIT` of 0 ms. A body that halts, jumps
  or holds nested loops is not covered.
- LoopCounts.UntilLoopBounds: the bounds are proved for the same one-step
  `WAIT` body, with the condition read from the observations. Other bodies
  are not covered.
- Matcher.QuickCheck: of the exceptions `quick_check_cv2` catches, only
  the `cv2.error` that `matchTemplate` raises for a crop smaller than the
  template in one dimension and larger in the other is modelled
  (`Matcher.Raises`). Errors from image conversion, and the `ValueError`,
  `TypeError`, `AttributeError` and `IndexError` paths, are not.
- Matcher.FindImage: a `cv2.error` inside `find_image_cv2` is not
  modelled; usable scales always fit inside the screenshot, so
  `matchTemplate` does not raise for them.
- The listbox text (prefixes, step descriptions) of
  `update_listbox_display` is not modelled. Only the indentation levels
  are.

## Findings

| source | as written | input that shows it | evidently intended | confidence | as-written member | corrected member |
|---|---|---|---|---|---|---|
| MacroAssistant.py:1048-1078 | `run_macro` checks `is_macro_running`, but only sets it when `_start_macro_thread` runs 1.5 s later. A second run hotkey inside that delay schedules a second start. | Press the run hotkey twice within 1.5 s on an idle window with steps. Two macro threads run; when the first ends, the context is cleared, so the stop hotkey cannot stop the second. | At most one run in flight: a run request is refused while a start is already scheduled. | medium, not executed | Editor.DoubleStartAsWritten, Editor.UnstoppableAsWritten | Editor.RunMacro, Editor.ApplyAllKeepsOneRun |
