/** The nesting-aware forward scan `_find_jump` (core_engine.py:693-702)
    that resolves where an unmet `IF_*`, an `ELSE`, or an exhausted
    `LOOP_START` continues. */
module Jump {
  import opened Text

  /** `a.startswith(open_tag.rstrip('_'))`: the action opens a nested block
      of the same family (`IF_` opens on any action starting with `IF`). */
  predicate Opens(a: string, openTag: string)
  {
    RStripChar(openTag, '_') <= a
  }

  /** How an action moves the nesting counter while no target has been hit. */
  function Delta(a: string, openTag: string, close: string): int
  {
    if Opens(a, openTag) then 1 else if a == close then -1 else 0
  }

  /** The nesting counter when the scan started after `start` reaches
      index `i`. */
  function DepthBefore(acts: seq<string>, start: nat, i: nat, openTag: string, close: string): int
    requires start < i <= |acts|
    decreases i
  {
    if i == start + 1 then 0
    else DepthBefore(acts, start, i - 1, openTag, close) + Delta(acts[i - 1], openTag, close)
  }

  /** The scan stops at index `i`: the action is a target that does not
      open a block, met at nesting level 0. */
  predicate Hit(acts: seq<string>, start: nat, i: nat, openTag: string, close: string, targets: seq<string>)
  {
    start < i < |acts| && !Opens(acts[i], openTag) && acts[i] in targets
    && DepthBefore(acts, start, i, openTag, close) == 0
  }

  /** The loop of `_find_jump` from index `i` with counter `lvl`. */
  function Scan(acts: seq<string>, start: nat, i: nat, lvl: int, openTag: string, close: string,
                targets: seq<string>): (r: nat)
    requires start < i <= |acts|
    ensures i < r <= |acts| || r == |acts|
    decreases |acts| - i
  {
    if i == |acts| then |acts|
    else
      var a := acts[i];
      if Opens(a, openTag) then Scan(acts, start, i + 1, lvl + 1, openTag, close, targets)
      else if a == close then
        if lvl == 0 && a in targets then i + 1
        else Scan(acts, start, i + 1, lvl - 1, openTag, close, targets)
      else if lvl == 0 && a in targets then i + 1
      else Scan(acts, start, i + 1, lvl, openTag, close, targets)
  }

  /** With the counter tracking the nesting depth, the scan stops one past
      the first hit at or after `i`, and runs to the end when there is
      none. */
  lemma {:induction false} ScanFirstHit(acts: seq<string>, start: nat, i: nat, lvl: int, openTag: string,
                                        close: string, targets: seq<string>)
    requires start < i <= |acts|
    requires lvl == DepthBefore(acts, start, i, openTag, close)
    ensures var r := Scan(acts, start, i, lvl, openTag, close, targets);
      (exists h :: i <= h && Hit(acts, start, h, openTag, close, targets)) ==>
        r > i && Hit(acts, start, r - 1, openTag, close, targets)
        && forall h :: i <= h < r - 1 ==> !Hit(acts, start, h, openTag, close, targets)
    ensures (forall h :: i <= h ==> !Hit(acts, start, h, openTag, close, targets)) ==>
      Scan(acts, start, i, lvl, openTag, close, targets) == |acts|
    decreases |acts| - i
  {
    if i < |acts| && !Hit(acts, start, i, openTag, close, targets) {
      ScanFirstHit(acts, start, i + 1, lvl + Delta(acts[i], openTag, close), openTag, close, targets);
    }
  }

  /** `_find_jump(steps, start, open_tag, close_tag, targets)` on the
      steps' actions: one past the first target met at nesting level 0
      after `start`, skipping nested blocks of the same family; the end of
      the list when there is none. */
  function FindJump(acts: seq<string>, start: nat, openTag: string, close: string, targets: seq<string>)
    : (r: nat)
    ensures r <= |acts|
    ensures start < |acts| ==> start < r
    ensures (exists h :: Hit(acts, start, h, openTag, close, targets)) ==>
      Hit(acts, start, r - 1, openTag, close, targets)
        && forall h: nat :: h < r - 1 ==> !Hit(acts, start, h, openTag, close, targets)
    ensures (forall h :: !Hit(acts, start, h, openTag, close, targets)) ==> r == |acts|
  {
    if start + 1 >= |acts| then |acts|
    else
      ScanFirstHit(acts, start, start + 1, 0, openTag, close, targets);
      Scan(acts, start, start + 1, 0, openTag, close, targets)
  }

  /** The tags of the two block families. */
  const IfTag: string := "IF_"
  const EndIf: string := "END_IF"
  const ElseTag: string := "ELSE"
  const LoopStart: string := "LOOP_START"
  const EndLoop: string := "END_LOOP"

  /** An unmet condition at `pc` continues after its ELSE or END_IF. */
  function SkipIf(acts: seq<string>, pc: nat): nat
  {
    FindJump(acts, pc, IfTag, EndIf, [ElseTag, EndIf])
  }

  /** An ELSE reached from its IF branch continues after its END_IF. */
  function SkipElse(acts: seq<string>, pc: nat): nat
  {
    FindJump(acts, pc, IfTag, EndIf, [EndIf])
  }

  /** A loop that is skipped or finished continues after its END_LOOP. */
  function SkipLoop(acts: seq<string>, pc: nat): nat
  {
    FindJump(acts, pc, LoopStart, EndLoop, [EndLoop])
  }

  /** A nested IF/ELSE/END_IF block inside the THEN branch is skipped
      whole: the unmet outer condition lands after the outer ELSE. */
  lemma NestedIfSkipped()
    ensures SkipIf(["IF_IMAGE", "IF_TEXT", "ELSE", "END_IF", "ELSE", "CLICK", "END_IF"], 0) == 5
  {
    var acts := ["IF_IMAGE", "IF_TEXT", "ELSE", "END_IF", "ELSE", "CLICK", "END_IF"];
    assert RStripChar(IfTag, '_') == "IF";
    assert Opens(acts[1], IfTag) && !Opens(acts[2], IfTag) && !Opens(acts[3], IfTag) && !Opens(acts[4], IfTag);
  }

  /** An inner loop's END_LOOP does not end the outer loop. */
  lemma NestedLoopSkipped()
    ensures SkipLoop(["LOOP_START", "LOOP_START", "WAIT", "END_LOOP", "CLICK", "END_LOOP", "WAIT"], 0) == 6
  {
    var acts := ["LOOP_START", "LOOP_START", "WAIT", "END_LOOP", "CLICK", "END_LOOP", "WAIT"];
    assert RStripChar(LoopStart, '_') == LoopStart;
    assert Opens(acts[1], LoopStart) && !Opens(acts[3], LoopStart) && !Opens(acts[5], LoopStart);
  }
}
