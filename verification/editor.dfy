/** The step editor's list operations and the run/stop guards of the main
    window (MacroAssistant.py): the recent-files list, moving a step up or
    down, the indentation of the step list, and the guards that start and
    stop a run. */
module Editor {
  import opened Wrappers
  import opened Jump

  // ---------------------------------------------------------------------
  // Recent files
  // ---------------------------------------------------------------------

  const MaxRecentFiles: nat := 5

  /** `list.remove(x)`: drops the first occurrence of `x`. */
  function RemoveFirst<T(==)>(s: seq<T>, x: T): (r: seq<T>)
    requires x in s
    ensures |r| == |s| - 1
    decreases |s|
  {
    if s[0] == x then s[1..] else [s[0]] + RemoveFirst(s[1..], x)
  }

  /** Removing the first `x` leaves the list around it: the part before
      its first occurrence, then the part after. */
  lemma {:induction false} RemoveFirstSplits<T>(s: seq<T>, x: T) returns (k: nat)
    requires x in s
    ensures k < |s| && s[k] == x && x !in s[..k]
    ensures RemoveFirst(s, x) == s[..k] + s[k + 1..]
    decreases |s|
  {
    if s[0] == x {
      k := 0;
    } else {
      var j := RemoveFirstSplits(s[1..], x);
      k := j + 1;
      assert s[..k] == [s[0]] + s[1..][..j];
      assert s[k + 1..] == s[1..][j + 1..];
    }
  }

  /** Python's `s[:n]`. */
  function Take<T>(s: seq<T>, n: nat): (r: seq<T>)
    ensures |r| == if |s| <= n then |s| else n
    ensures r <= s
  {
    if |s| <= n then s else s[..n]
  }

  /** `MacroApp.add_to_recent_files` on an absolute path: an earlier copy
      of `f` is removed, `f` goes first, and the list is cut to five. */
  function AddToRecentFiles(recent: seq<string>, f: string): (r: seq<string>)
    ensures 1 <= |r| <= MaxRecentFiles && r[0] == f
    ensures |r| == if f in recent then (if |recent| <= MaxRecentFiles then |recent| else MaxRecentFiles)
                   else (if |recent| + 1 <= MaxRecentFiles then |recent| + 1 else MaxRecentFiles)
  {
    var rest := if f in recent then RemoveFirst(recent, f) else recent;
    Take([f] + rest, MaxRecentFiles)
  }

  predicate NoDuplicates<T(==)>(s: seq<T>)
  {
    forall i, j :: 0 <= i < j < |s| ==> s[i] != s[j]
  }

  /** The entries after `f` are the old list without `f`, in their old
      order, cut short. */
  lemma {:induction false} RecentKeepsOrder(recent: seq<string>, f: string)
    ensures var r := AddToRecentFiles(recent, f);
      r[1..] <= (if f in recent then RemoveFirst(recent, f) else recent)
  {
    var rest := if f in recent then RemoveFirst(recent, f) else recent;
    var r := AddToRecentFiles(recent, f);
    assert r <= [f] + rest;
    assert r[1..] <= ([f] + rest)[1..];
    assert ([f] + rest)[1..] == rest;
  }

  /** Removing the first copy of `f` from a list without repeats leaves
      no copy of `f` and no repeats. */
  lemma {:induction false} RemoveFirstNoDuplicates(s: seq<string>, f: string)
    requires f in s && NoDuplicates(s)
    ensures var rest := RemoveFirst(s, f);
      NoDuplicates(rest) && f !in rest
  {
    var k := RemoveFirstSplits(s, f);
    var rest := RemoveFirst(s, f);
    forall i, j | 0 <= i < j < |rest|
      ensures rest[i] != rest[j]
    {
      var a := if i < k then i else i + 1;
      var b := if j < k then j else j + 1;
      assert rest[i] == s[a] && rest[j] == s[b];
    }
    forall i | 0 <= i < |rest|
      ensures rest[i] != f
    {
      var a := if i < k then i else i + 1;
      assert rest[i] == s[a];
    }
  }

  lemma {:induction false} ConsNoDuplicates(f: string, rest: seq<string>)
    requires f !in rest && NoDuplicates(rest)
    ensures NoDuplicates([f] + rest)
  {
    var r := [f] + rest;
    forall i, j | 0 <= i < j < |r|
      ensures r[i] != r[j]
    {
      assert r[j] == rest[j - 1];
      if i > 0 {
        assert r[i] == rest[i - 1];
      }
    }
  }

  lemma {:induction false} PrefixNoDuplicates(r: seq<string>, s: seq<string>)
    requires r <= s && NoDuplicates(s)
    ensures NoDuplicates(r)
  {
    forall i, j | 0 <= i < j < |r|
      ensures r[i] != r[j]
    {
      assert r[i] == s[i] && r[j] == s[j];
    }
  }

  /** On a list without repeats, `f` is then the only copy, and the list
      still has no repeats. */
  lemma {:induction false} RecentNoDuplicates(recent: seq<string>, f: string)
    requires NoDuplicates(recent)
    ensures var r := AddToRecentFiles(recent, f);
      NoDuplicates(r) && f !in r[1..]
  {
    var rest := if f in recent then RemoveFirst(recent, f) else recent;
    if f in recent {
      RemoveFirstNoDuplicates(recent, f);
    }
    ConsNoDuplicates(f, rest);
    var r := AddToRecentFiles(recent, f);
    assert r <= [f] + rest;
    PrefixNoDuplicates(r, [f] + rest);
  }

  /** Opening the most recent file again changes nothing. */
  lemma {:induction false} RecentIdempotent(recent: seq<string>, f: string)
    ensures AddToRecentFiles(AddToRecentFiles(recent, f), f) == AddToRecentFiles(recent, f)
  {
    var r := AddToRecentFiles(recent, f);
    assert r[0] == f;
    assert RemoveFirst(r, f) == r[1..];
    assert [f] + r[1..] == r;
  }

  // ---------------------------------------------------------------------
  // Moving a step
  // ---------------------------------------------------------------------

  /** Python's `list.insert(i, x)` for an index within the list. */
  function Insert<T>(s: seq<T>, i: nat, x: T): (r: seq<T>)
    requires i <= |s|
    ensures |r| == |s| + 1
  {
    s[..i] + [x] + s[i..]
  }

  /** Python's `list.pop(i)`'s effect on the list. */
  function Pop<T>(s: seq<T>, i: nat): (r: seq<T>)
    requires i < |s|
    ensures |r| == |s| - 1
  {
    s[..i] + s[i + 1..]
  }

  datatype Direction = Up | Down

  /** The listbox's selection as `curselection()` reports it: row indices
      in increasing order. */
  predicate IsSelection(sel: seq<nat>, n: nat)
  {
    && (forall k :: 0 <= k < |sel| ==> sel[k] < n)
    && (forall a, b :: 0 <= a < b < |sel| ==> sel[a] < sel[b])
  }

  /** The selection `update_listbox_display` leaves: refilling the listbox
      clears it, and the edited row, when there is one, is selected again. */
  function Redisplayed(editing: Option<nat>, n: nat): (sel: seq<nat>)
    ensures IsSelection(sel, n) && |sel| <= 1
    ensures forall k :: 0 <= k < |sel| ==> editing == Some(sel[k])
    ensures editing.Some? && editing.value < n ==> sel == [editing.value]
  {
    if editing.Some? && editing.value < n then [editing.value] else []
  }

  /** `selection_set(j)`: row `j` joins a selection of at most one row;
      nothing is deselected. */
  function SelectAlso(sel: seq<nat>, j: nat, n: nat): (r: seq<nat>)
    requires IsSelection(sel, n) && |sel| <= 1 && j < n
    ensures IsSelection(r, n)
    ensures forall x :: x in r <==> x in sel || x == j
  {
    if |sel| == 0 || sel[0] == j then [j]
    else if sel[0] < j then [sel[0], j]
    else [j, sel[0]]
  }

  /** The step list, the step being edited and the list's selection. */
  datatype Moved<T> = Moved(steps: seq<T>, editing: Option<nat>, selected: seq<nat>)

  /** `MacroApp.move_step`: the first selected row `i` and its neighbour
      above or below are looked at; when the neighbour's index is inside
      the list the step is popped and inserted there, the editing index
      follows the step or its neighbour, the list is redisplayed and the new
      index is added to the selection. Otherwise nothing changes. The
      listbox shows exactly the steps, so a selection indexes them. */
  function MoveStep<T>(steps: seq<T>, selection: seq<nat>, d: Direction, editing: Option<nat>): (r: Moved<T>)
    requires IsSelection(selection, |steps|)
    ensures |r.steps| == |steps|
    ensures IsSelection(r.selected, |steps|)
    ensures r.steps != steps ==> |selection| > 0
    ensures r.selected != selection ==>
      && |selection| > 0
      && var j := if d == Up then selection[0] as int - 1 else selection[0] + 1;
      && 0 <= j < |steps| && j as nat in r.selected
      && forall x :: x in r.selected ==> x == j || r.editing == Some(x)
  {
    if |selection| == 0 then Moved(steps, editing, selection)
    else
      var i := selection[0];
      var j: int := if d == Up then i as int - 1 else i + 1;
      if 0 <= j < |steps| then
        var e := if editing == Some(i) then Some(j as nat)
                 else if editing == Some(j as nat) then Some(i) else editing;
        Moved(Insert(Pop(steps, i), j as nat, steps[i]), e, SelectAlso(Redisplayed(e, |steps|), j as nat, |steps|))
      else Moved(steps, editing, selection)
  }

  /** Popping a step and inserting it next door swaps the two neighbours. */
  lemma {:induction false} MoveSwaps<T>(steps: seq<T>, i: nat, j: nat)
    requires i < |steps| && j < |steps| && (j == i + 1 || i == j + 1)
    ensures var r := Insert(Pop(steps, i), j, steps[i]);
      r[j] == steps[i] && r[i] == steps[j]
      && forall k :: 0 <= k < |steps| && k != i && k != j ==> r[k] == steps[k]
  {
    var p := Pop(steps, i);
    var r := Insert(p, j, steps[i]);
    assert r[j] == steps[i];
    forall k | 0 <= k < |steps| && k != j
      ensures r[k] == if k == i then steps[j] else steps[k]
    {
      if k < j {
        assert r[k] == p[k];
      } else {
        assert r[k] == p[k - 1];
      }
    }
  }

  lemma {:induction false} PopMultiset<T>(s: seq<T>, i: nat)
    requires i < |s|
    ensures multiset(Pop(s, i)) + multiset{s[i]} == multiset(s)
  {
    assert s == s[..i] + [s[i]] + s[i + 1..];
  }

  lemma {:induction false} InsertMultiset<T>(s: seq<T>, i: nat, x: T)
    requires i <= |s|
    ensures multiset(Insert(s, i, x)) == multiset(s) + multiset{x}
  {
    assert s == s[..i] + s[i..];
  }

  /** A move only reorders the steps. */
  lemma {:induction false} MovePermutes<T>(steps: seq<T>, selection: seq<nat>, d: Direction, editing: Option<nat>)
    requires IsSelection(selection, |steps|)
    ensures multiset(MoveStep(steps, selection, d, editing).steps) == multiset(steps)
  {
    if |selection| > 0 {
      var i := selection[0];
      var j: int := if d == Up then i as int - 1 else i + 1;
      if 0 <= j < |steps| {
        var p := Pop(steps, i);
        var r := Insert(p, j as nat, steps[i]);
        assert MoveStep(steps, selection, d, editing).steps == r;
        PopMultiset(steps, i);
        InsertMultiset(p, j as nat, steps[i]);
      }
    }
  }

  /** The step being edited is the same step after the move. */
  lemma {:induction false} MoveKeepsEditedStep<T>(steps: seq<T>, selection: seq<nat>, d: Direction, e: nat)
    requires IsSelection(selection, |steps|)
    requires e < |steps|
    ensures var r := MoveStep(steps, selection, d, Some(e));
      r.editing.Some? && r.editing.value < |r.steps| && r.steps[r.editing.value] == steps[e]
  {
    if |selection| > 0 {
      var i := selection[0];
      var j: int := if d == Up then i as int - 1 else i + 1;
      if 0 <= j < |steps| {
        MoveSwaps(steps, i, j as nat);
      }
    }
  }

  /** Moving the first selected step down and then up again restores the
      list and the editing index, when no other step is being edited: the
      selection is then that step alone. */
  lemma {:induction false} MoveDownUp<T>(steps: seq<T>, selection: seq<nat>, editing: Option<nat>)
    requires IsSelection(selection, |steps|) && |selection| > 0 && selection[0] + 1 < |steps|
    requires editing.None? || editing == Some(selection[0])
    ensures var m := MoveStep(steps, selection, Down, editing);
      MoveStep(m.steps, m.selected, Up, m.editing) == Moved(steps, editing, [selection[0]])
  {
    var i := selection[0];
    var m := MoveStep(steps, selection, Down, editing);
    assert m.selected == [i + 1];
    MoveSwaps(steps, i, i + 1);
    MoveSwaps(m.steps, i + 1, i);
    var back := Insert(Pop(m.steps, i + 1), i, m.steps[i + 1]);
    assert |back| == |steps|;
    forall k | 0 <= k < |steps|
      ensures back[k] == steps[k]
    {
    }
  }

  /** While the first step is being edited, moving the third step down
      leaves both rows selected, so moving up then acts on the first row,
      which cannot move: the list is not restored. */
  lemma MoveDownUpWhileEditingFirst<T>(steps: seq<T>)
    requires |steps| == 4 && steps[2] != steps[3]
    ensures var m := MoveStep(steps, [2], Down, Some(0));
      && m.selected == [0, 3]
      && MoveStep(m.steps, m.selected, Up, m.editing).steps == m.steps
      && m.steps != steps
  {
    var m := MoveStep(steps, [2], Down, Some(0));
    MoveSwaps(steps, 2, 3);
    assert m.steps[2] == steps[3];
  }

  // ---------------------------------------------------------------------
  // Indentation of the step list
  // ---------------------------------------------------------------------

  /** The actions shown one level out from the block they belong to. */
  predicate Dedents(a: string)
  {
    a == ElseTag || a == EndIf || a == EndLoop
  }

  predicate OpensBlock(a: string)
  {
    IfTag <= a || a == LoopStart
  }

  predicate ClosesBlock(a: string)
  {
    a == EndIf || a == EndLoop
  }

  /** The number of open blocks before step `k`: an `IF_*` or
      `LOOP_START` opens one, an `END_IF` or `END_LOOP` closes one when one
      is open. */
  function Depth(acts: seq<string>, k: nat): nat
    requires k <= |acts|
  {
    if k == 0 then 0
    else
      var d := Depth(acts, k - 1);
      var a := acts[k - 1];
      if OpensBlock(a) then d + 1
      else if ClosesBlock(a) && d > 0 then d - 1
      else d
  }

  /** The indentation level of step `k`. */
  function Level(acts: seq<string>, k: nat): nat
    requires k < |acts|
  {
    var d := Depth(acts, k);
    if Dedents(acts[k]) then (if d > 0 then d - 1 else 0) else d
  }

  /** The indentation computation of `MacroApp.update_listbox_display`,
      with its stack of open blocks. */
  method IndentLevels(acts: seq<string>) returns (levels: seq<nat>)
    ensures |levels| == |acts|
    ensures forall k :: 0 <= k < |acts| ==> levels[k] == Level(acts, k)
  {
    var stack: seq<string> := [];
    levels := [];
    var i := 0;
    while i < |acts|
      invariant 0 <= i <= |acts|
      invariant |levels| == i && |stack| == Depth(acts, i)
      invariant forall k :: 0 <= k < i ==> levels[k] == Level(acts, k)
      invariant forall k :: 0 <= k < |stack| ==> OpensBlock(stack[k])
    {
      var act := acts[i];
      var drop := if act == ElseTag || act == EndIf || act == EndLoop then 1 else 0;
      var level := if |stack| - drop > 0 then |stack| - drop else 0;
      levels := levels + [level];
      if IfTag <= act || act == LoopStart {
        stack := stack + [act];
      } else if (act == EndIf || act == EndLoop) && |stack| > 0 {
        stack := stack[..|stack| - 1];
      }
      i := i + 1;
    }
  }

  lemma ClosersAreNotOpeners()
    ensures !OpensBlock(ElseTag) && !OpensBlock(EndIf) && !OpensBlock(EndLoop)
  {
    assert IfTag[0] == 'I' && ElseTag[0] == 'E' && EndIf[0] == 'E' && EndLoop[0] == 'E';
    assert LoopStart[0] == 'L';
  }

  /** The step after a block opener is indented one level deeper, unless
      it closes or switches that block, in which case it lines up with the
      opener. */
  lemma {:induction false} OpenerIndentsNext(acts: seq<string>, k: nat)
    requires k + 1 < |acts| && OpensBlock(acts[k])
    ensures Level(acts, k + 1) == Level(acts, k) + (if Dedents(acts[k + 1]) then 0 else 1)
  {
    ClosersAreNotOpeners();
  }

  /** The step after a block closer lines up with the closer, unless it
      dedents again. */
  lemma {:induction false} CloserAlignsNext(acts: seq<string>, k: nat)
    requires k + 1 < |acts| && ClosesBlock(acts[k]) && !Dedents(acts[k + 1])
    ensures Level(acts, k + 1) == Level(acts, k)
  {
    ClosersAreNotOpeners();
  }

  /** An `ELSE` lines up with the `IF_*` directly before it. */
  lemma {:induction false} ElseAlignsWithIf(acts: seq<string>, k: nat)
    requires k + 1 < |acts| && IfTag <= acts[k] && acts[k + 1] == ElseTag
    ensures Level(acts, k + 1) == Level(acts, k)
  {
    OpenerIndentsNext(acts, k);
  }

  // ---------------------------------------------------------------------
  // Starting and stopping a run
  // ---------------------------------------------------------------------

  /** The stop flag the running macro polls. */
  datatype RunContext = RunContext(stopRequested: bool)

  /** The main window's run state: whether a run is marked as running,
      the current run's context, the step being edited, the number of
      steps, how many run starts are scheduled but not yet begun, and how
      many macro threads are executing. */
  datatype App = App(running: bool, context: Option<RunContext>, editing: Option<nat>, stepCount: nat,
                     pending: nat, threads: nat)

  /** `MacroApp.run_macro` as written: refused while running or with no
      steps, and from the button unless confirmation is skipped or given;
      otherwise the thread start is scheduled 1.5 s later. */
  function RunMacroAsWritten(a: App, hotkey: bool, skipConfirm: bool, confirmed: bool): (r: App)
    ensures r != a ==> !a.running && a.stepCount > 0 && r == a.(pending := a.pending + 1)
    ensures r != a <==> !a.running && a.stepCount > 0 && (hotkey || skipConfirm || confirmed)
  {
    if a.running || a.stepCount == 0 then a
    else if !hotkey && !skipConfirm && !confirmed then a
    else a.(pending := a.pending + 1)
  }

  /** `run_macro` with its guard extended to a start that is already
      scheduled. */
  function RunMacro(a: App, hotkey: bool, skipConfirm: bool, confirmed: bool): (r: App)
    ensures r != a ==> !a.running && a.pending == 0 && a.stepCount > 0 && r == a.(pending := 1)
    ensures r != a <==> !a.running && a.pending == 0 && a.stepCount > 0 && (hotkey || skipConfirm || confirmed)
  {
    if a.running || a.pending > 0 || a.stepCount == 0 then a
    else if !hotkey && !skipConfirm && !confirmed then a
    else a.(pending := a.pending + 1)
  }

  /** `_start_macro_thread`, when a scheduled start comes due: the run is
      marked as running with a fresh context and a thread begins. */
  function StartMacroThread(a: App): (r: App)
    ensures a.pending > 0 ==> r.running && r.context == Some(RunContext(false)) && r.threads == a.threads + 1
    ensures a.pending == 0 ==> r == a
  {
    if a.pending == 0 then a
    else a.(running := true, context := Some(RunContext(false)), pending := a.pending - 1, threads := a.threads + 1)
  }

  /** `_on_macro_complete`, when a thread finishes. */
  function MacroComplete(a: App): (r: App)
    ensures a.threads > 0 ==> !r.running && r.context.None? && r.threads == a.threads - 1
    ensures a.threads == 0 ==> r == a
  {
    if a.threads == 0 then a
    else a.(running := false, context := None, threads := a.threads - 1)
  }

  /** `MacroApp.safe_stop_macro`: only while running, and only through a
      current context, the stop flag is raised. */
  function SafeStopMacro(a: App): (r: App)
    ensures r.context != a.context ==> a.running && a.context.Some? && r.context == Some(RunContext(true))
    ensures r == a.(context := r.context)
  {
    if a.running && a.context.Some? then a.(context := Some(RunContext(true))) else a
  }

  /** The window's events. */
  datatype Event =
    | RunHotkey
    | RunButton(skipConfirm: bool, confirmed: bool)
    | ThreadStarts
    | StopHotkey
    | ThreadEnds

  /** `MacroApp.safe_run_macro` then `run_macro(hotkey=True)`: the hotkey
      also waits while a step is being edited. */
  function SafeRunMacro(a: App, asWritten: bool): (r: App)
    ensures r != a <==> !a.running && a.editing.None? && a.stepCount > 0 && (asWritten || a.pending == 0)
    ensures r != a ==> r == a.(pending := a.pending + 1)
  {
    if !a.running && a.editing.None? then
      (if asWritten then RunMacroAsWritten(a, true, false, false) else RunMacro(a, true, false, false))
    else a
  }

  function ApplyWith(a: App, e: Event, asWritten: bool): App
  {
    match e
    case RunHotkey => SafeRunMacro(a, asWritten)
    case RunButton(skip, ok) =>
      if asWritten then RunMacroAsWritten(a, false, skip, ok) else RunMacro(a, false, skip, ok)
    case ThreadStarts => StartMacroThread(a)
    case StopHotkey => SafeStopMacro(a)
    case ThreadEnds => MacroComplete(a)
  }

  /** The window with the corrected guard. */
  function Apply(a: App, e: Event): App
  {
    ApplyWith(a, e, false)
  }

  function ApplyAll(a: App, es: seq<Event>, asWritten: bool): App
    decreases |es|
  {
    if |es| == 0 then a else ApplyAll(ApplyWith(a, es[0], asWritten), es[1..], asWritten)
  }

  /** At most one run at a time: a scheduled start and an executing
      thread exclude each other, `running` marks the thread, and the stop
      flag's context exists exactly while running. */
  predicate OneRun(a: App)
  {
    a.pending + a.threads <= 1 && (a.running <==> a.threads == 1) && (a.context.Some? <==> a.running)
  }

  /** Every event keeps at most one run in flight. */
  lemma {:induction false} ApplyKeepsOneRun(a: App, e: Event)
    requires OneRun(a)
    ensures OneRun(Apply(a, e))
  {
  }

  lemma {:induction false} ApplyAllKeepsOneRun(a: App, es: seq<Event>)
    requires OneRun(a)
    ensures OneRun(ApplyAll(a, es, false))
    decreases |es|
  {
    if |es| > 0 {
      ApplyKeepsOneRun(a, es[0]);
      ApplyAllKeepsOneRun(Apply(a, es[0]), es[1..]);
    }
  }

  /** A run starts only from an idle window with steps, and from the
      hotkey only while no step is being edited. */
  lemma {:induction false} StartNeedsIdle(a: App, e: Event)
    requires OneRun(a)
    requires Apply(a, e).pending > a.pending
    ensures !a.running && a.pending == 0 && a.stepCount > 0
    ensures e == RunHotkey ==> a.editing.None?
  {
  }

  /** The stop hotkey has an effect only on a running macro. */
  lemma {:induction false} StopOnlyWhileRunning(a: App)
    requires OneRun(a)
    ensures SafeStopMacro(a) != a ==> a.running && SafeStopMacro(a).context == Some(RunContext(true))
    ensures !a.running ==> SafeStopMacro(a) == a
  {
  }

  /** As written, pressing the run hotkey twice within the start delay
      schedules two starts, and two macro threads run at once. */
  lemma {:induction false} DoubleStartAsWritten()
    ensures var a := App(false, None, None, 1, 0, 0);
      var b := ApplyAll(a, [RunHotkey, RunHotkey, ThreadStarts, ThreadStarts], true);
      OneRun(a) && b.threads == 2 && !OneRun(b)
  {
    var a := App(false, None, None, 1, 0, 0);
    var a1 := ApplyWith(a, RunHotkey, true);
    assert a1.pending == 1;
    var a2 := ApplyWith(a1, RunHotkey, true);
    assert a2.pending == 2;
    var a3 := ApplyWith(a2, ThreadStarts, true);
    var a4 := ApplyWith(a3, ThreadStarts, true);
    assert a4.threads == 2;
    var es := [RunHotkey, RunHotkey, ThreadStarts, ThreadStarts];
    assert es[1..][1..][1..][1..] == [];
  }

  /** As written, once the first of two threads ends the stop hotkey no
      longer reaches the thread still running. */
  lemma {:induction false} UnstoppableAsWritten()
    ensures var a := App(false, None, None, 1, 0, 0);
      var b := ApplyAll(a, [RunHotkey, RunHotkey, ThreadStarts, ThreadStarts, ThreadEnds, StopHotkey], true);
      b.threads == 1 && b.context.None?
  {
    var es := [RunHotkey, RunHotkey, ThreadStarts, ThreadStarts, ThreadEnds, StopHotkey];
    assert es[1..][1..][1..][1..][1..][1..] == [];
  }
}
