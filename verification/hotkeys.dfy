/** Hotkey strings and the held-key machine. A hotkey is stored as a
    lower-case string such as `ctrl+f10`: modifiers, then one key, joined
    by `+`. The entry widget records one from key events, the settings
    dialog validates and saves the pair, the listener parses them and fires
    the run or stop action on key presses, and the status bar displays them
    capitalised (gui_utils.py, MacroAssistant.py, core_engine.py). */
module Hotkeys {
  import opened Wrappers
  import opened Text

  /** The modifier names, in the order a recorded hotkey lists them. */
  const Modifiers: seq<string> := ["ctrl", "alt", "shift", "cmd"]

  const DefaultRun: string := "ctrl+f10"
  const DefaultStop: string := "ctrl+f11"

  /** The two characters of "record" that the entry's placeholder texts
      contain; a hotkey string holding them was never recorded. */
  const Recording: string := "\U{5F55}\U{5236}"

  predicate IsModifier(s: string) { s in Modifiers }

  /** A part that is already its own stripped, lower-case form and holds no
      `+`: what joining and splitting on `+` leave alone. */
  predicate Clean(s: string)
  {
    '+' !in s && Strip(s) == s && Lower(s) == s
  }

  /** Text without whitespace and upper-case letters is clean once it holds
      no `+`. */
  lemma {:induction false} CleanOfPlain(s: string)
    requires forall i :: 0 <= i < |s| ==> !IsSpace(s[i]) && !IsUpperLetter(s[i]) && s[i] != '+'
    ensures Clean(s)
  {
    NoSpaceStripsToItself(s);
  }

  lemma {:induction false} ModifierClean(m: string)
    requires IsModifier(m)
    ensures Clean(m)
  {
    CleanOfPlain(m);
  }

  /** Clean parts joined by `+` split back into themselves. */
  lemma {:induction false} SplitJoinedClean(parts: seq<string>)
    requires |parts| >= 1 && forall i :: 0 <= i < |parts| ==> Clean(parts[i])
    ensures Split(Join(parts, "+"), '+') == parts
  {
    assert "+" == ['+'];
    SplitJoin(parts, '+');
  }

  // ---------------------------------------------------------------------
  // Display
  // ---------------------------------------------------------------------

  /** One part as displayed: modifiers capitalised, anything else upper
      case. */
  function DisplayPart(part: string): (r: string)
    ensures Lower(r) == Lower(part)
    ensures Lower(part) in Modifiers ==>
      (|r| > 0 ==> !IsLowerLetter(r[0])) && forall i :: 1 <= i < |r| ==> !IsUpperLetter(r[i])
    ensures Lower(part) !in Modifiers ==> forall i :: 0 <= i < |r| ==> !IsLowerLetter(r[i])
    ensures '+' !in part ==> '+' !in r
  {
    if Lower(part) in Modifiers then Capitalize(part)
    else
      LowerOfUpper(part);
      Upper(part)
  }

  function DisplayParts(parts: seq<string>): (r: seq<string>)
    ensures |r| == |parts| && forall i :: 0 <= i < |parts| ==> r[i] == DisplayPart(parts[i])
  {
    seq(|parts|, i requires 0 <= i < |parts| => DisplayPart(parts[i]))
  }

  /** `HotkeyUtils.format_hotkey_display`: an empty string or one holding
      the recording placeholder is shown as it is; otherwise each
      `+`-separated part is shown through `DisplayPart`. The `except`
      branch is unreachable for strings. */
  function FormatHotkeyDisplay(h: string): (r: string)
    ensures Lower(r) == Lower(h)
    ensures |r| == |h|
    ensures Contains(h, Recording) ==> r == h
    ensures |h| > 0 && !Contains(h, Recording) ==> Split(r, '+') == DisplayParts(Split(h, '+'))
  {
    if |h| == 0 || Contains(h, Recording) then h
    else
      assert "+" == ['+'];
      var parts := Split(h, '+');
      LowerJoinDisplay(parts);
      SplitJoin(DisplayParts(parts), '+');
      Join(DisplayParts(parts), "+")
  }

  lemma {:induction false} LowerJoinDisplay(parts: seq<string>)
    ensures Lower(Join(DisplayParts(parts), "+")) == Lower(Join(parts, "+"))
    decreases |parts|
  {
    if |parts| > 1 {
      var d := DisplayParts(parts);
      assert d[1..] == DisplayParts(parts[1..]);
      LowerJoinDisplay(parts[1..]);
      LowerConcat(d[0] + "+", Join(d[1..], "+"));
      LowerConcat(d[0], "+");
      LowerConcat(parts[0] + "+", Join(parts[1..], "+"));
      LowerConcat(parts[0], "+");
    }
  }

  // ---------------------------------------------------------------------
  // Validation and saving
  // ---------------------------------------------------------------------

  /** `f1` to `f12`, as a multi-part hotkey's key must spell them. */
  predicate IsFunctionKey(k: string)
  {
    exists n :: 1 <= n <= 12 && k == FunctionKey(n)
  }

  /** The name of function key `n`, `f` then `n` in decimal. */
  function FunctionKey(n: nat): string
  {
    "f" + NatToString(n)
  }

  lemma {:induction false} FunctionKeyDigits(n: nat)
    ensures |FunctionKey(n)| >= 2 && FunctionKey(n)[0] == 'f' && FunctionKey(n)[1..] == NatToString(n)
  {
    assert ("f" + NatToString(n))[1..] == NatToString(n);
  }

  const NamedKeys: seq<string> := ["space", "enter", "tab", "esc", "backspace", "delete"]

  /** The keys a multi-part hotkey may end in: a lower-case letter, a digit,
      a function key or a named key. */
  predicate IsValidKey(k: string)
  {
    (|k| == 1 && (IsLowerLetter(k[0]) || IsDigit(k[0]))) || IsFunctionKey(k) || k in NamedKeys
  }

  lemma {:induction false} ValidKeyClean(k: string)
    requires IsValidKey(k)
    ensures Clean(k)
  {
    if IsFunctionKey(k) {
      FunctionKeyClean(k);
    } else if k in NamedKeys {
      NamedKeyClean(k);
    } else {
      CleanOfPlain(k);
    }
  }

  lemma {:induction false} FunctionKeyClean(k: string)
    requires IsFunctionKey(k)
    ensures Clean(k)
  {
    var n :| 1 <= n <= 12 && k == FunctionKey(n);
    FunctionKeyDigits(n);
    assert forall j :: 1 <= j < |k| ==> k[j] == k[1..][j - 1];
    CleanOfPlain(k);
  }

  lemma {:induction false} NamedKeyClean(k: string)
    requires k in NamedKeys
    ensures Clean(k)
  {
    CleanOfPlain(k);
  }

  /** A lone part: `f` followed by decimal digits whose value is 1 to 12. */
  predicate IsFunctionKeyNumber(p: string)
  {
    |p| > 0 && p[0] == 'f' && IsDigits(p[1..]) && 1 <= DigitsValue(p[1..]) <= 12
  }

  /** `_validate_hotkey`: a single part must be a function key number; with
      several parts, every part but the last must strip to a modifier and
      the last must strip to a valid key. */
  function ValidateHotkey(h: string): (r: bool)
    ensures '+' !in h ==> (r <==> IsFunctionKeyNumber(h))
    ensures '+' in h ==> |Split(h, '+')| >= 2 && (r <==> PartsValid(Split(h, '+')))
    ensures r && '+' in h ==> forall i :: 0 <= i < |Split(h, '+')| - 1 ==> IsModifier(Strip(Split(h, '+')[i]))
  {
    var parts := Split(h, '+');
    SplitCount(h, '+');
    if |parts| == 1 then IsFunctionKeyNumber(parts[0])
    else PartsValid(parts)
  }

  /** Every part but the last strips to a modifier, the last to a valid
      key. */
  predicate PartsValid(parts: seq<string>)
    requires |parts| >= 1
  {
    (forall i :: 0 <= i < |parts| - 1 ==> IsModifier(Strip(parts[i])))
    && IsValidKey(Strip(parts[|parts| - 1]))
  }

  /** Without a `+`, a hotkey is valid exactly when it is a function key
      number. */
  lemma {:induction false} ValidateSinglePart(h: string)
    requires '+' !in h
    ensures ValidateHotkey(h) <==> IsFunctionKeyNumber(h)
  {
  }

  /** A lone function key may be written with a leading zero. */
  lemma {:induction false} LoneLeadingZeroValid()
    ensures ValidateHotkey("f01")
  {
    ValidateSinglePart("f01");
    assert "f01"[1..] == "01";
    assert DigitsValue("01") == 10 * DigitsValue("0") + DigitValue('1');
  }

  /** The decimal form of a positive number does not start with `0`. */
  lemma {:induction false} NoLeadingZero(n: nat)
    requires n >= 1
    ensures NatToString(n)[0] != '0'
  {
    if n >= 10 {
      NoLeadingZero(n / 10);
    }
  }

  /** `f01` is not among the keys a multi-part hotkey may end in. */
  lemma {:induction false} PaddedFunctionKeyInvalid()
    ensures !IsValidKey("f01")
  {
    if IsFunctionKey("f01") {
      var n :| 1 <= n <= 12 && "f01" == FunctionKey(n);
      FunctionKeyDigits(n);
      NoLeadingZero(n);
      assert false;
    }
  }

  /** Splitting `ctrl+f01` on `+` gives its two parts, unchanged by
      stripping. */
  lemma {:induction false} CtrlF01Parts()
    ensures Split("ctrl+f01", '+') == ["ctrl", "f01"]
    ensures Strip("f01") == "f01"
  {
    CleanOfPlain("ctrl");
    CleanOfPlain("f01");
    assert "ctrl+f01" == Join(["ctrl", "f01"], "+");
    SplitJoinedClean(["ctrl", "f01"]);
  }

  /** After a modifier, a function key written with a leading zero is
      refused. */
  lemma {:induction false} JoinedLeadingZeroInvalid()
    ensures !ValidateHotkey("ctrl+f01")
  {
    CtrlF01Parts();
    PaddedFunctionKeyInvalid();
  }

  /** Modifiers followed by a valid key, joined by `+`, are valid. */
  lemma {:induction false} ValidateJoined(mods: seq<string>, key: string)
    requires |mods| >= 1 && (forall i :: 0 <= i < |mods| ==> IsModifier(mods[i])) && IsValidKey(key)
    ensures ValidateHotkey(Join(mods + [key], "+"))
  {
    var parts := mods + [key];
    forall i | 0 <= i < |parts|
      ensures Clean(parts[i])
    {
      if i < |mods| {
        assert parts[i] == mods[i];
        ModifierClean(mods[i]);
      } else {
        assert parts[i] == key;
        ValidKeyClean(key);
      }
    }
    SplitJoinedClean(parts);
    forall i | 0 <= i < |parts| - 1
      ensures IsModifier(Strip(parts[i]))
    {
      assert parts[i] == mods[i];
    }
    assert Strip(parts[|parts| - 1]) == key;
  }

  /** Any `+`-free parts, two or more, joined by `+` are valid exactly when
      every part but the last strips to a modifier and the last strips to a
      valid key; surrounding whitespace in a part is allowed. */
  lemma {:induction false} ValidateParts(parts: seq<string>)
    requires |parts| >= 2 && forall i :: 0 <= i < |parts| ==> '+' !in parts[i]
    ensures ValidateHotkey(Join(parts, "+")) <==>
      (forall i :: 0 <= i < |parts| - 1 ==> IsModifier(Strip(parts[i])))
      && IsValidKey(Strip(parts[|parts| - 1]))
  {
    var h := Join(parts, "+");
    assert "+" == ['+'];
    SplitJoin(parts, '+');
    assert Split(h, '+') == parts;
    assert ValidateHotkey(h) == PartsValid(parts);
  }

  /** A modifier followed by a second modifier and a key is refused: the
      key must come last. */
  lemma {:induction false} KeyBeforeLastRefused(parts: seq<string>, k: nat)
    requires |parts| >= 2 && forall i :: 0 <= i < |parts| ==> '+' !in parts[i]
    requires k < |parts| - 1 && !IsModifier(Strip(parts[k]))
    ensures !ValidateHotkey(Join(parts, "+"))
  {
    ValidateParts(parts);
  }

  /** Why the settings dialog refuses a pair. */
  datatype SaveError = EmptyHotkey | SameHotkeys | InvalidRun | InvalidStop

  datatype SaveResult = Saved(run: string, stop: string) | Refused(error: SaveError)

  /** `HotkeySettingsDialog.save`: both texts are stripped and lower-cased;
      an empty text or one still showing the placeholder, two equal
      hotkeys, or a hotkey that fails validation is refused, in that order
      of checks. */
  function Save(runText: string, stopText: string): (r: SaveResult)
    ensures r.Saved? <==>
      var run := Lower(Strip(runText));
      var stop := Lower(Strip(stopText));
      |run| > 0 && |stop| > 0 && !Contains(run, Recording) && !Contains(stop, Recording)
      && run != stop && ValidateHotkey(run) && ValidateHotkey(stop)
    ensures r.Saved? ==> r.run == Lower(Strip(runText)) && r.stop == Lower(Strip(stopText))
  {
    var run := Lower(Strip(runText));
    var stop := Lower(Strip(stopText));
    if |run| == 0 || |stop| == 0 || Contains(run, Recording) || Contains(stop, Recording) then
      Refused(EmptyHotkey)
    else if run == stop then Refused(SameHotkeys)
    else if !ValidateHotkey(run) then Refused(InvalidRun)
    else if !ValidateHotkey(stop) then Refused(InvalidStop)
    else Saved(run, stop)
  }

  /** Lower-casing keeps every character's whitespace-ness. */
  lemma {:induction false} LowerKeepsSpaces(s: string, i: nat)
    requires i < |s|
    ensures IsSpace(Lower(s)[i]) <==> IsSpace(s[i])
  {
  }

  /** A string that starts and ends with non-whitespace strips to itself. */
  lemma {:induction false} StripOfTrimmed(s: string)
    requires |s| > 0 ==> !IsSpace(s[0]) && !IsSpace(s[|s| - 1])
    ensures Strip(s) == s
  {
    assert StripLeft(s) == s;
    assert StripRight(s) == s;
  }

  /** The normal form `save` computes is a fixed point. */
  lemma {:induction false} NormalFormStable(text: string)
    ensures Lower(Strip(Lower(Strip(text)))) == Lower(Strip(text))
  {
    var t := Strip(text);
    var u := Lower(t);
    if |u| > 0 {
      LowerKeepsSpaces(t, 0);
      LowerKeepsSpaces(t, |t| - 1);
    }
    StripOfTrimmed(u);
    LowerIdempotent(t);
  }

  /** Saving a saved pair again keeps it unchanged. */
  lemma {:induction false} SaveIdempotent(runText: string, stopText: string)
    requires Save(runText, stopText).Saved?
    ensures var r := Save(runText, stopText); Save(r.run, r.stop) == r
  {
    NormalFormStable(runText);
    NormalFormStable(stopText);
  }

  // ---------------------------------------------------------------------
  // Parsing
  // ---------------------------------------------------------------------

  datatype Hotkey = Hotkey(mods: set<string>, key: string)

  function StripAll(parts: seq<string>): (r: seq<string>)
    ensures |r| == |parts| && forall i :: 0 <= i < |parts| ==> r[i] == Strip(parts[i])
  {
    seq(|parts|, i requires 0 <= i < |parts| => Strip(parts[i]))
  }

  /** `MacroApp._parse_hotkey`: lower-cased, split on `+` and stripped; the
      last part is the key and the others form the modifier set. No name
      holds a `+`, and a hotkey without one is a bare key. */
  function ParseHotkey(h: string): (r: Hotkey)
    ensures '+' !in r.key && forall m :: m in r.mods ==> '+' !in m
    ensures '+' !in h ==> r == Hotkey({}, Strip(Lower(h)))
  {
    LowerKeepsPlus(h);
    var split := Split(Lower(h), '+');
    SplitCount(Lower(h), '+');
    StripAllAvoids(split, '+');
    var parts := StripAll(split);
    var mods := set i | 0 <= i < |parts| - 1 :: parts[i];
    assert '+' !in h ==> mods == {} && parts == [Strip(Lower(h))] by {
      if '+' !in h {
        assert split == [Lower(h)];
      }
    }
    Hotkey(mods, parts[|parts| - 1])
  }

  /** Lower-casing neither adds nor removes a `+`. */
  lemma LowerKeepsPlus(h: string)
    ensures '+' in Lower(h) <==> '+' in h
  {
    if '+' in h {
      var i :| 0 <= i < |h| && h[i] == '+';
      assert Lower(h)[i] == '+';
    }
  }

  /** Stripping keeps a character out of every part it was not in. */
  lemma StripAllAvoids(parts: seq<string>, c: char)
    requires forall i :: 0 <= i < |parts| ==> c !in parts[i]
    ensures forall i :: 0 <= i < |parts| ==> c !in StripAll(parts)[i]
  {
    forall i | 0 <= i < |parts|
      ensures c !in StripAll(parts)[i]
    {
      var k := StripSlice(parts[i]);
    }
  }

  lemma {:induction false} LowerJoinClean(parts: seq<string>)
    requires forall i :: 0 <= i < |parts| ==> Lower(parts[i]) == parts[i]
    ensures Lower(Join(parts, "+")) == Join(parts, "+")
    decreases |parts|
  {
    if |parts| > 1 {
      LowerJoinClean(parts[1..]);
      LowerConcat(parts[0] + "+", Join(parts[1..], "+"));
      LowerConcat(parts[0], "+");
    }
  }

  /** Parsing undoes joining clean parts: the last is the key, the others
      are the modifier set. */
  lemma {:induction false} ParseJoined(mods: seq<string>, key: string)
    requires (forall i :: 0 <= i < |mods| ==> Clean(mods[i])) && Clean(key)
    ensures ParseHotkey(Join(mods + [key], "+")) == Hotkey(set m | m in mods :: m, key)
  {
    var parts := mods + [key];
    assert forall i :: 0 <= i < |parts| ==> Clean(parts[i]);
    LowerJoinClean(parts);
    assert "+" == ['+'];
    SplitJoin(parts, '+');
    var stripped := StripAll(parts);
    assert stripped == parts;
    InitialPartsSet(mods, key);
  }

  /** The parts before the last of `mods + [key]` are the elements of
      `mods`. */
  lemma {:induction false} InitialPartsSet(mods: seq<string>, key: string)
    ensures var parts := mods + [key];
      (set i | 0 <= i < |parts| - 1 :: parts[i]) == set m | m in mods :: m
  {
    var parts := mods + [key];
    var lhs := set i | 0 <= i < |parts| - 1 :: parts[i];
    forall m | m in mods
      ensures m in lhs
    {
      var i :| 0 <= i < |mods| && mods[i] == m;
      assert parts[i] == m;
    }
    forall m | m in lhs
      ensures m in mods
    {
      var i :| 0 <= i < |parts| - 1 && parts[i] == m;
      assert mods[i] == m;
    }
  }

  // ---------------------------------------------------------------------
  // Recording in the entry widget
  // ---------------------------------------------------------------------

  /** A name made of lower-case letters and underscores. */
  predicate IsWord(s: string)
  {
    |s| > 0 && forall i :: 0 <= i < |s| ==> IsLowerLetter(s[i]) || s[i] == '_'
  }

  /** The names the special-key table gives. */
  const SpecialNames: seq<string> := ["enter", "space", "tab", "caps_lock", "esc", "backspace",
    "delete", "page_up", "page_down", "end", "home", "left", "up", "right", "down", "insert"]

  /** Every special name is a word. */
  lemma SpecialNamesAreWords(k: string)
    requires k in SpecialNames
    ensures IsWord(k)
  {
  }

  /** The entry widget's table of special key symbols and their names. */
  function SpecialKeyName(n: string): (r: Option<string>)
    ensures r.Some? ==> r.value in SpecialNames
  {
    if n == "return" then Some("enter")
    else if n == "space" then Some("space")
    else if n == "tab" then Some("tab")
    else if n == "capital" then Some("caps_lock")
    else if n == "escape" then Some("esc")
    else if n == "backspace" then Some("backspace")
    else if n == "delete" then Some("delete")
    else if n == "prior" then Some("page_up")
    else if n == "next" then Some("page_down")
    else if n == "end" then Some("end")
    else if n == "home" then Some("home")
    else if n == "left" then Some("left")
    else if n == "up" then Some("up")
    else if n == "right" then Some("right")
    else if n == "down" then Some("down")
    else if n == "insert" then Some("insert")
    else None
  }

  /** What the entry widget's key names can be: a modifier, a special
      key's name, a function key `f` and digits, or one lower-case letter
      or digit. */
  predicate IsKeyName(k: string)
  {
    || IsModifier(k)
    || k in SpecialNames
    || (|k| > 0 && k[0] == 'f' && IsDigits(k[1..]))
    || (|k| == 1 && (IsLowerLetter(k[0]) || IsDigit(k[0])))
  }

  /** `HotkeyEntry._get_key_name` on the event's key symbol: control, alt,
      shift and the Windows or Super keys map to modifiers, by substring;
      then function keys, single letters or digits, and the special-key
      table; anything else has no name. */
  function KeyName(keysym: string): (r: Option<string>)
    ensures r.Some? ==> IsKeyName(r.value) && Lower(r.value) == r.value
  {
    var n := Lower(keysym);
    LowerIdempotent(keysym);
    if Contains(n, "control") then Some("ctrl")
    else if Contains(n, "alt") then Some("alt")
    else if Contains(n, "shift") then Some("shift")
    else if Contains(n, "win") || Contains(n, "super") then Some("cmd")
    else if |n| > 0 && n[0] == 'f' && IsDigits(n[1..]) then Some(n)
    else if |n| == 1 && IsAlnum(n[0]) then Some(n)
    else
      var sp := SpecialKeyName(n);
      if sp.Some? then SpecialNameIsKeyName(sp.value); sp else sp
  }

  /** A special key's name is a lower-case key name. */
  lemma SpecialNameIsKeyName(k: string)
    requires k in SpecialNames
    ensures IsKeyName(k) && Lower(k) == k
  {
    SpecialNamesAreWords(k);
  }

  /** Every key name is clean: it survives joining and parsing. */
  lemma {:induction false} KeyNameClean(k: string)
    requires IsKeyName(k) && Lower(k) == k
    ensures Clean(k)
  {
    if IsModifier(k) {
      ModifierClean(k);
    } else if k in SpecialNames {
      SpecialNamesAreWords(k);
      CleanOfPlain(k);
    } else {
      if |k| > 0 && k[0] == 'f' && IsDigits(k[1..]) {
        assert forall i :: 1 <= i < |k| ==> k[i] == k[1..][i - 1];
      }
      CleanOfPlain(k);
    }
  }

  /** The names of `ms` that are among `keys`, in `ms`'s order. */
  function Filter(ms: seq<string>, keys: seq<string>): (r: seq<string>)
    ensures forall x :: x in r <==> x in ms && x in keys
    decreases |ms|
  {
    if |ms| == 0 then []
    else (if ms[0] in keys then [ms[0]] else []) + Filter(ms[1..], keys)
  }

  /** The held modifiers, in the fixed order ctrl, alt, shift, cmd. */
  function HeldModifiers(keys: seq<string>): seq<string>
  {
    Filter(Modifiers, keys)
  }

  /** `a` lists some elements of `b`, in `b`'s order. */
  predicate SubsequenceOf(a: seq<string>, b: seq<string>)
    decreases |b|
  {
    |a| == 0 || (|b| > 0 && if a[0] == b[0] then SubsequenceOf(a[1..], b[1..]) else SubsequenceOf(a, b[1..]))
  }

  predicate Distinct(ms: seq<string>)
  {
    forall i, j :: 0 <= i < j < |ms| ==> ms[i] != ms[j]
  }

  /** Filtering a list without repeats keeps its order. */
  lemma {:induction false} FilterOrdered(ms: seq<string>, keys: seq<string>)
    requires Distinct(ms)
    ensures SubsequenceOf(Filter(ms, keys), ms)
    decreases |ms|
  {
    if |ms| > 0 {
      var rest := Filter(ms[1..], keys);
      assert Distinct(ms[1..]) by {
        assert forall i :: 0 <= i < |ms| - 1 ==> ms[1..][i] == ms[i + 1];
      }
      FilterOrdered(ms[1..], keys);
      if ms[0] in keys {
        var r := [ms[0]] + rest;
        assert Filter(ms, keys) == r;
        assert r[0] == ms[0] && r[1..] == rest;
      } else {
        assert Filter(ms, keys) == rest;
        if |rest| > 0 {
          assert rest[0] in ms[1..];
          assert rest[0] != ms[0];
        }
      }
    }
  }

  /** The modifiers of a recording are exactly the held ones, listed in
      the fixed order. */
  lemma {:induction false} HeldModifiersOrdered(keys: seq<string>)
    ensures SubsequenceOf(HeldModifiers(keys), Modifiers)
    ensures forall m :: m in HeldModifiers(keys) <==> m in Modifiers && m in keys
  {
    FilterOrdered(Modifiers, keys);
  }

  /** No held modifier is the empty name. */
  lemma HeldModifiersNonEmpty(keys: seq<string>)
    ensures forall i :: 0 <= i < |HeldModifiers(keys)| ==> |HeldModifiers(keys)[i]| > 0
  {
    forall i | 0 <= i < |HeldModifiers(keys)|
      ensures |HeldModifiers(keys)[i]| > 0
    {
      assert HeldModifiers(keys)[i] in Modifiers;
    }
  }

  /** The first non-modifier in the set's iteration order. */
  function FirstNonModifier(keys: seq<string>): (r: Option<string>)
    ensures r.Some? ==> r.value in keys && !IsModifier(r.value)
    ensures r.None? ==> forall i :: 0 <= i < |keys| ==> IsModifier(keys[i])
  {
    if |keys| == 0 then None
    else if !IsModifier(keys[0]) then Some(keys[0])
    else FirstNonModifier(keys[1..])
  }

  /** The entry's text and its string variable after a key event. */
  datatype Shown = Shown(text: string, stored: Option<string>)

  /** The recorded string: the held modifiers in fixed order, then the key
      if there is one. */
  function RecordedString(keys: seq<string>): (r: string)
    ensures |r| == 0 <==>
              HeldModifiers(keys) == [] && (FirstNonModifier(keys).None? || |FirstNonModifier(keys).value| == 0)
  {
    HeldModifiersNonEmpty(keys);
    var key := FirstNonModifier(keys);
    if key.Some? && |key.value| > 0 then Join(HeldModifiers(keys) + [key.value], "+")
    else Join(HeldModifiers(keys), "+")
  }

  /** `HotkeyEntry._display_current_keys`. The held keys are a set; `keys`
      lists them in the order Python iterates it, so the key chosen is the
      first non-modifier in that order. The text shows the display form of
      the recorded string; the string variable, when there is one, is set
      only on the final event and only when a key is present. */
  function DisplayCurrentKeys(keys: seq<string>, final: bool, stored: Option<string>): (r: Shown)
    ensures r.text == FormatHotkeyDisplay(RecordedString(keys))
    ensures r.stored != stored ==> final && stored.Some? && r.stored == Some(RecordedString(keys))
    ensures r.stored != stored ==> exists i :: 0 <= i < |keys| && !IsModifier(keys[i]) && |keys[i]| > 0
  {
    var key := FirstNonModifier(keys);
    var res := RecordedString(keys);
    Shown(FormatHotkeyDisplay(res), if final && key.Some? && |key.value| > 0 && stored.Some? then Some(res) else stored)
  }

  lemma {:induction false} HeldModifiersClean(keys: seq<string>)
    ensures forall i :: 0 <= i < |HeldModifiers(keys)| ==> Clean(HeldModifiers(keys)[i])
  {
    var mods := HeldModifiers(keys);
    forall i | 0 <= i < |mods|
      ensures Clean(mods[i])
    {
      assert mods[i] in mods;
      ModifierClean(mods[i]);
    }
  }

  lemma {:induction false} HeldModifiersSet(keys: seq<string>)
    ensures (set m | m in HeldModifiers(keys) :: m) == set m | m in Modifiers && m in keys :: m
  {
  }

  /** The key a recorded hotkey ends in is a clean key name. */
  lemma {:induction false} RecordedKeyClean(keys: seq<string>)
    requires forall i :: 0 <= i < |keys| ==> IsKeyName(keys[i]) && Lower(keys[i]) == keys[i]
    requires FirstNonModifier(keys).Some?
    ensures var key := FirstNonModifier(keys).value;
      Clean(key) && |key| > 0 && RecordedString(keys) == Join(HeldModifiers(keys) + [key], "+")
  {
    var key := FirstNonModifier(keys).value;
    var i :| 0 <= i < |keys| && keys[i] == key;
    KeyNameClean(key);
  }

  /** A hotkey recorded from key names parses back to the held modifiers
      and the chosen key. */
  lemma {:induction false} RecordedParses(keys: seq<string>)
    requires forall i :: 0 <= i < |keys| ==> IsKeyName(keys[i]) && Lower(keys[i]) == keys[i]
    requires FirstNonModifier(keys).Some?
    ensures var key := FirstNonModifier(keys).value;
      ParseHotkey(RecordedString(keys)) == Hotkey(set m | m in Modifiers && m in keys :: m, key)
  {
    RecordedKeyClean(keys);
    HeldModifiersClean(keys);
    HeldModifiersSet(keys);
    ParseJoined(HeldModifiers(keys), FirstNonModifier(keys).value);
  }

  /** A recording lists modifiers only, and at least one when one is
      held. */
  lemma {:induction false} HeldModifiersShape(keys: seq<string>, m: string)
    requires m in Modifiers && m in keys
    ensures |HeldModifiers(keys)| >= 1
    ensures forall i :: 0 <= i < |HeldModifiers(keys)| ==> IsModifier(HeldModifiers(keys)[i])
  {
    var mods := HeldModifiers(keys);
    assert m in mods;
    assert forall i :: 0 <= i < |mods| ==> mods[i] in mods;
  }

  /** A hotkey recorded with at least one modifier held and a valid key
      passes validation. */
  lemma {:induction false} RecordedValid(keys: seq<string>, m: string)
    requires forall i :: 0 <= i < |keys| ==> IsKeyName(keys[i]) && Lower(keys[i]) == keys[i]
    requires FirstNonModifier(keys).Some? && IsValidKey(FirstNonModifier(keys).value)
    requires m in Modifiers && m in keys
    ensures ValidateHotkey(RecordedString(keys))
  {
    HeldModifiersShape(keys, m);
    ValidateJoined(HeldModifiers(keys), FirstNonModifier(keys).value);
    RecordedKeyClean(keys);
  }

  // ---------------------------------------------------------------------
  // The default hotkeys
  // ---------------------------------------------------------------------

  /** `ctrl` then function key `n`, the shape of both defaults. */
  function CtrlF(n: nat): string
  {
    Join(["ctrl", FunctionKey(n)], "+")
  }

  lemma Pair<T>(a: T, b: T)
    ensures [a] + [b] == [a, b]
  {
  }

  lemma {:induction false} CtrlFSpelled(n: nat)
    ensures CtrlF(n) == "ctrl+" + FunctionKey(n)
  {
    var parts := ["ctrl", FunctionKey(n)];
    assert parts[0] == "ctrl" && parts[1..] == [FunctionKey(n)];
    assert Join(parts[1..], "+") == FunctionKey(n);
    assert "ctrl" + "+" == "ctrl+";
  }

  lemma {:induction false} FunctionKeyNames()
    ensures FunctionKey(10) == "f10" && FunctionKey(11) == "f11"
  {
    assert NatToString(10) == "10";
    assert NatToString(11) == "11";
    assert "f" + "10" == "f10";
    assert "f" + "11" == "f11";
  }

  lemma {:induction false} DefaultsAreCtrlF()
    ensures DefaultRun == CtrlF(10) && DefaultStop == CtrlF(11)
  {
    CtrlFSpelled(10);
    CtrlFSpelled(11);
    FunctionKeyNames();
    assert "ctrl+" + "f10" == DefaultRun;
    assert "ctrl+" + "f11" == DefaultStop;
  }

  lemma {:induction false} SingletonSet(x: string)
    ensures (set m | m in [x] :: m) == {x}
  {
    var s := set m | m in [x] :: m;
    assert x in [x];
    forall m | m in s
      ensures m == x
    {
    }
  }

  /** `ctrl+fN` holds no whitespace, no upper-case letter and no
      placeholder character. */
  lemma {:induction false} CtrlFPlain(n: nat)
    ensures forall i :: 0 <= i < |CtrlF(n)| ==>
      !IsSpace(CtrlF(n)[i]) && !IsUpperLetter(CtrlF(n)[i]) && CtrlF(n)[i] != Recording[0]
  {
    CtrlFSpelled(n);
    FunctionKeyDigits(n);
    var x := CtrlF(n);
    var k := FunctionKey(n);
    forall i | 0 <= i < |x|
      ensures !IsSpace(x[i]) && !IsUpperLetter(x[i]) && x[i] != Recording[0]
    {
      if i > 5 {
        assert x[i] == k[1..][i - 6];
      }
    }
  }

  /** `ctrl+fN` is its own normal form and holds no placeholder. */
  lemma {:induction false} CtrlFNormal(n: nat)
    ensures Lower(Strip(CtrlF(n))) == CtrlF(n)
    ensures !Contains(CtrlF(n), Recording)
  {
    CtrlFPlain(n);
    NoSpaceStripsToItself(CtrlF(n));
    NotContainsForeign(CtrlF(n), Recording);
  }

  lemma {:induction false} CtrlFValid(n: nat)
    requires 1 <= n <= 12
    ensures ValidateHotkey(CtrlF(n))
  {
    assert IsFunctionKey(FunctionKey(n));
    ValidateJoined(["ctrl"], FunctionKey(n));
    Pair("ctrl", FunctionKey(n));
  }

  lemma {:induction false} CtrlFParses(n: nat)
    requires 1 <= n <= 12
    ensures ParseHotkey(CtrlF(n)) == Hotkey({"ctrl"}, FunctionKey(n))
  {
    var k := FunctionKey(n);
    assert IsFunctionKey(k);
    FunctionKeyClean(k);
    ModifierClean("ctrl");
    ParsePair("ctrl", k);
    assert CtrlF(n) == Join(["ctrl", k], "+");
  }

  /** A clean modifier and a clean key, joined, parse back into the two. */
  lemma {:induction false} ParsePair(m: string, k: string)
    requires Clean(m) && Clean(k)
    ensures ParseHotkey(Join([m, k], "+")) == Hotkey({m}, k)
  {
    var mods := [m];
    assert forall i :: 0 <= i < |mods| ==> Clean(mods[i]);
    ParseJoined(mods, k);
    Pair(m, k);
    SingletonSet(m);
  }

  lemma {:induction false} CtrlFInjective(n: nat, m: nat)
    requires n != m
    ensures CtrlF(n) != CtrlF(m)
  {
    CtrlFSpelled(n);
    CtrlFSpelled(m);
    assert CtrlF(n)[5..] == FunctionKey(n) && CtrlF(m)[5..] == FunctionKey(m);
    FunctionKeyDigits(n);
    FunctionKeyDigits(m);
    assert FunctionKey(n)[1..] != FunctionKey(m)[1..];
  }

  /** Two different `ctrl+fN` hotkeys save unchanged. */
  lemma {:induction false} CtrlFSaved(n: nat, m: nat)
    requires 1 <= n <= 12 && 1 <= m <= 12 && n != m
    ensures Save(CtrlF(n), CtrlF(m)) == Saved(CtrlF(n), CtrlF(m))
  {
    CtrlFNormal(n);
    CtrlFNormal(m);
    CtrlFValid(n);
    CtrlFValid(m);
    CtrlFInjective(n, m);
  }

  lemma {:induction false} DefaultsValid()
    ensures ValidateHotkey(DefaultRun) && ValidateHotkey(DefaultStop)
  {
    DefaultsAreCtrlF();
    CtrlFValid(10);
    CtrlFValid(11);
  }

  /** The dialog accepts the default pair as it is. */
  lemma {:induction false} SaveDefaults()
    ensures Save(DefaultRun, DefaultStop) == Saved(DefaultRun, DefaultStop)
  {
    DefaultsAreCtrlF();
    CtrlFSaved(10, 11);
  }

  lemma {:induction false} ParseDefaults()
    ensures ParseHotkey(DefaultRun) == Hotkey({"ctrl"}, "f10")
    ensures ParseHotkey(DefaultStop) == Hotkey({"ctrl"}, "f11")
  {
    DefaultsAreCtrlF();
    CtrlFParses(10);
    CtrlFParses(11);
    FunctionKeyNames();
  }

  /** Two clean parts, joined, split back into the two. */
  lemma {:induction false} PairSplit(m: string, k: string)
    requires Clean(m) && Clean(k)
    ensures Split(Join([m, k], "+"), '+') == [m, k]
  {
    SplitJoinedClean([m, k]);
  }

  /** Two clean parts, joined, are displayed part by part. */
  lemma {:induction false} DisplayPair(m: string, k: string)
    requires Clean(m) && Clean(k)
    requires |Join([m, k], "+")| > 0 && !Contains(Join([m, k], "+"), Recording)
    ensures FormatHotkeyDisplay(Join([m, k], "+")) == Join(DisplayParts([m, k]), "+")
  {
    PairSplit(m, k);
  }

  /** `ctrl+fN` is displayed part by part. */
  lemma {:induction false} CtrlFDisplay(n: nat)
    requires 1 <= n <= 12
    ensures FormatHotkeyDisplay(CtrlF(n)) == Join(DisplayParts(["ctrl", FunctionKey(n)]), "+")
  {
    var k := FunctionKey(n);
    CtrlFNormal(n);
    CtrlFSpelled(n);
    ModifierClean("ctrl");
    assert IsFunctionKey(k);
    FunctionKeyClean(k);
    DisplayPair("ctrl", k);
  }

  /** `ctrl` followed by a lower-case key that is no modifier: the
      modifier is capitalised and the key upper-cased. */
  lemma {:induction false} CtrlDisplayParts(k: string)
    requires Lower(k) == k && !IsModifier(k)
    ensures DisplayParts(["ctrl", k]) == ["Ctrl", Upper(k)]
  {
    assert Lower("ctrl") == "ctrl";
    assert Capitalize("ctrl") == "Ctrl";
    assert DisplayPart("ctrl") == "Ctrl";
  }

  /** `ctrl+k` for a clean key that is no modifier is displayed as `Ctrl+`
      followed by the key in upper case. */
  lemma {:induction false} CtrlKeyDisplay(k: string)
    requires Clean(k) && !IsModifier(k) && Recording[0] !in k
    ensures FormatHotkeyDisplay(Join(["ctrl", k], "+")) == Join(["Ctrl", Upper(k)], "+")
  {
    ModifierClean("ctrl");
    var h := Join(["ctrl", k], "+");
    assert h == "ctrl" + "+" + k by {
      assert ["ctrl", k][1..] == [k];
      assert Join([k], "+") == k;
    }
    assert Recording[0] !in h;
    NotContainsForeign(h, Recording);
    DisplayPair("ctrl", k);
    CtrlDisplayParts(k);
  }

  lemma {:induction false} CtrlF10Joined()
    ensures Join(["Ctrl", Upper("f10")], "+") == "Ctrl+F10"
  {
    assert Upper("f10") == "F10";
    assert ["Ctrl", "F10"][1..] == ["F10"];
    assert "Ctrl" + "+" + "F10" == "Ctrl+F10";
  }

  /** The status bar shows the default run hotkey as `Ctrl+F10`. */
  lemma {:induction false} DefaultRunDisplay()
    ensures FormatHotkeyDisplay(DefaultRun) == "Ctrl+F10"
  {
    DefaultsAreCtrlF();
    CtrlFDisplay(10);
    FunctionKeyNames();
    CtrlDisplayParts("f10");
    CtrlF10Joined();
  }

  lemma {:induction false} CtrlAJoined()
    ensures Join(["ctrl", "a"], "+") == "ctrl+a"
    ensures Join(["Ctrl", Upper("a")], "+") == "Ctrl+A"
  {
    assert ["ctrl", "a"][1..] == ["a"];
    assert Upper("a") == "A";
    assert ["Ctrl", "A"][1..] == ["A"];
  }

  /** A modifier part is capitalised, any other part upper-cased. */
  lemma {:induction false} DisplayCtrlA()
    ensures FormatHotkeyDisplay("ctrl+a") == "Ctrl+A"
  {
    CleanOfPlain("a");
    CtrlAJoined();
    CtrlKeyDisplay("a");
  }

  // ---------------------------------------------------------------------
  // The listener
  // ---------------------------------------------------------------------

  /** Left and right variants of a modifier count as the modifier. */
  function Normalise(name: string): (r: string)
    ensures r != name ==> IsModifier(r)
  {
    if name == "ctrl_l" || name == "ctrl_r" then "ctrl"
    else if name == "alt_l" || name == "alt_r" || name == "alt_gr" then "alt"
    else if name == "shift_l" || name == "shift_r" then "shift"
    else if name == "cmd_l" || name == "cmd_r" || name == "cmd" then "cmd"
    else name
  }

  datatype Pressed = Pressed(held: set<string>, runFires: bool, stopFires: bool)

  /** A hotkey fires on `key` when it is the hotkey's key and all of its
      modifiers are held. */
  predicate Fires(h: Hotkey, key: string, held: set<string>)
  {
    key == h.key && h.mods <= held
  }

  /** `MacroApp.on_hotkey_press`: `name` is the listener's key name (`None`
      when it has none) and `run`, `stop` are the stored hotkeys as
      `ParseHotkey` reads them. A key already held changes nothing, so
      auto-repeat never fires twice; a new key joins the held set, and
      each hotkey whose key it is fires when all of that hotkey's
      modifiers are held. */
  function OnHotkeyPress(held: set<string>, name: Option<string>, run: Hotkey, stop: Hotkey): (r: Pressed)
    ensures r.runFires || r.stopFires ==> name.Some? && Normalise(name.value) !in held
    ensures r.runFires ==> Fires(run, Normalise(name.value), r.held)
    ensures r.stopFires ==> Fires(stop, Normalise(name.value), r.held)
    ensures held <= r.held && forall k :: k in r.held && k !in held ==> name.Some? && k == Normalise(name.value)
  {
    if name.None? || |name.value| == 0 then Pressed(held, false, false)
    else
      var k := Normalise(name.value);
      if k in held then Pressed(held, false, false)
      else
        var now := held + {k};
        Pressed(now, Fires(run, k, now), Fires(stop, k, now))
  }

  /** Pressing a key that is already held, or one without a name, changes
      nothing and fires nothing. */
  lemma {:induction false} PressHeldIgnored(held: set<string>, name: Option<string>, run: Hotkey, stop: Hotkey)
    requires name.None? || |name.value| == 0 || Normalise(name.value) in held
    ensures OnHotkeyPress(held, name, run, stop) == Pressed(held, false, false)
  {
  }

  /** A new key fires exactly the hotkeys it completes. */
  lemma {:induction false} PressNewKey(held: set<string>, name: string, run: Hotkey, stop: Hotkey)
    requires |name| > 0 && Normalise(name) !in held
    ensures var r := OnHotkeyPress(held, Some(name), run, stop);
      r.held == held + {Normalise(name)}
      && (r.runFires <==> Normalise(name) == run.key && run.mods <= r.held)
      && (r.stopFires <==> Normalise(name) == stop.key && stop.mods <= r.held)
  {
  }

  /** `MacroApp.on_hotkey_release`: the normalised key leaves the held set. */
  function OnHotkeyRelease(held: set<string>, name: Option<string>): (r: set<string>)
    ensures r <= held
    ensures name.Some? && |name.value| > 0 ==> r == held - {Normalise(name.value)}
    ensures name.None? || |name.value| == 0 ==> r == held
  {
    if name.None? || |name.value| == 0 then held else held - {Normalise(name.value)}
  }

  /** Releasing a key that a press added restores the held set. */
  lemma {:induction false} ReleaseUndoesPress(held: set<string>, name: string, run: Hotkey, stop: Hotkey)
    requires |name| > 0 && Normalise(name) !in held
    ensures OnHotkeyRelease(OnHotkeyPress(held, Some(name), run, stop).held, Some(name)) == held
  {
  }

  /** Pressing left ctrl with nothing held holds ctrl, and fires neither
      hotkey when neither ends in ctrl. */
  lemma {:induction false} PressLeftCtrl(run: Hotkey, stop: Hotkey)
    requires run.key != "ctrl" && stop.key != "ctrl"
    ensures OnHotkeyPress({}, Some("ctrl_l"), run, stop) == Pressed({"ctrl"}, false, false)
  {
    assert Normalise("ctrl_l") == "ctrl";
    PressNewKey({}, "ctrl_l", run, stop);
    assert {} + {"ctrl"} == {"ctrl"};
  }

  lemma {:induction false} NormaliseF10()
    ensures Normalise("f10") == "f10"
  {
  }

  /** Pressing F10 with ctrl held fires a `ctrl+f10` run hotkey. */
  lemma {:induction false} PressF10WithCtrl(run: Hotkey, stop: Hotkey)
    requires run == Hotkey({"ctrl"}, "f10") && stop.key != "f10"
    ensures OnHotkeyPress({"ctrl"}, Some("f10"), run, stop) == Pressed({"ctrl", "f10"}, true, false)
  {
    NormaliseF10();
    PressNewKey({"ctrl"}, "f10", run, stop);
    assert {"ctrl"} + {"f10"} == {"ctrl", "f10"};
  }

  /** Holding ctrl and then pressing F10 fires the default run hotkey, not
      the stop hotkey. */
  lemma {:induction false} DefaultRunFires()
    ensures var run := ParseHotkey(DefaultRun);
      var stop := ParseHotkey(DefaultStop);
      var p1 := OnHotkeyPress({}, Some("ctrl_l"), run, stop);
      var p2 := OnHotkeyPress(p1.held, Some("f10"), run, stop);
      !p1.runFires && !p1.stopFires && p2.runFires && !p2.stopFires
  {
    ParseDefaults();
    PressLeftCtrl(ParseHotkey(DefaultRun), ParseHotkey(DefaultStop));
    PressF10WithCtrl(ParseHotkey(DefaultRun), ParseHotkey(DefaultStop));
  }
}
