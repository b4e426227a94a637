/** Region and rectangle arithmetic used when resolving a screen target: the
    persisted `cache_box` hint and its padded search region
    (core_engine.py:497-529), the screenshot offset (core_engine.py:208-214),
    the crop window of the cached-location re-check (core_engine.py:271-275),
    the drag-selected rectangle (gui_utils.py:147-152) and the typed region
    string (gui_utils.py:25-45). */
module Regions {
  import opened Wrappers
  import opened Geometry
  import opened Text
  import opened Values

  /** CACHE_BOX_PADDING (core_engine.py:33). */
  const CacheBoxPadding: int := 50

  /** What `_handle_find` makes of a `cache_box` value: the region to search,
      and whether the value stays in the step's parameters. */
  datatype CacheBoxDecision = CacheBoxDecision(region: Option<Rect>, keep: bool)

  /** A list of at least four numbers with positive width and height is kept
      and padded into a search region; a two-element list is widened to a
      zero-size box, and it and every other value are deleted. */
  function DecideCacheBox(cb: Value): (d: CacheBoxDecision)
    ensures d.region.Some? <==> d.keep
    ensures d.keep <==> cb.IntList? && |cb.xs| >= 4 && cb.xs[2] > cb.xs[0] && cb.xs[3] > cb.xs[1]
    ensures d.keep ==> d.region.value.w == cb.xs[2] - cb.xs[0] + 2 * CacheBoxPadding
    ensures d.keep ==> d.region.value.h == cb.xs[3] - cb.xs[1] + 2 * CacheBoxPadding
  {
    match cb
    case IntList(raw) =>
      var xs := if |raw| == 2 then [raw[0], raw[1], raw[0], raw[1]] else raw;
      if |xs| >= 4 then
        var w := xs[2] - xs[0];
        var h := xs[3] - xs[1];
        if w > 0 && h > 0 then
          CacheBoxDecision(Some(Rect(Max(0, xs[0] - CacheBoxPadding), Max(0, xs[1] - CacheBoxPadding),
                                     w + 2 * CacheBoxPadding, h + 2 * CacheBoxPadding)), true)
        else CacheBoxDecision(None, false)
      else CacheBoxDecision(None, false)
    case _ => CacheBoxDecision(None, false)
  }

  /** The padded region starts on screen and covers the on-screen part of the
      box with at least the padding to spare on the right and bottom. */
  lemma CacheBoxRegionCoversBox(cb: Value)
    requires DecideCacheBox(cb).keep
    ensures var r := DecideCacheBox(cb).region.value;
      && r.x >= 0 && r.y >= 0
      && r.x <= Max(0, cb.xs[0]) && r.y <= Max(0, cb.xs[1])
      && r.x + r.w >= cb.xs[2] + CacheBoxPadding && r.y + r.h >= cb.xs[3] + CacheBoxPadding
  {
  }

  /** The hint written back after a successful global search
      (core_engine.py:529): a 40x20 box centred on the found point. */
  function FallbackBox(p: Point): (v: Value)
    ensures v.IntList? && |v.xs| == 4
    ensures (v.xs[0] + v.xs[2]) / 2 == p.x && (v.xs[1] + v.xs[3]) / 2 == p.y
  {
    IntList([p.x - 20, p.y - 10, p.x + 20, p.y + 10])
  }

  /** The written-back hint is always accepted on the next search, and for an
      on-screen point its padded region contains the point. */
  lemma FallbackBoxReused(p: Point)
    ensures DecideCacheBox(FallbackBox(p)).keep
    ensures var r := DecideCacheBox(FallbackBox(p)).region.value;
      p.x >= 0 && p.y >= 0 ==> r.x <= p.x < r.x + r.w && r.y <= p.y < r.y + r.h
  {
  }

  /** `smart_screenshot(region)`: the grabbed box (none means full screen) and
      the offset that turns screenshot coordinates into screen coordinates. */
  datatype Capture = Capture(bbox: Option<(int, int, int, int)>, offset: Point)

  function Screenshot(region: Option<Rect>): (c: Capture)
    ensures c.offset.x >= 0 && c.offset.y >= 0
    ensures region.None? ==> c.offset == Point(0, 0) && c.bbox.None?
    ensures region.Some? && region.value.x >= 0 && region.value.y >= 0 ==>
      c.offset == Point(region.value.x, region.value.y)
    ensures region.Some? ==>
      && c.bbox.Some?
      && c.bbox.value.2 == region.value.x + region.value.w
      && c.bbox.value.3 == region.value.y + region.value.h
  {
    var pad := 0;
    match region
    case None => Capture(None, Point(0, 0))
    case Some(r) =>
      var x := Max(0, r.x - pad);
      var y := Max(0, r.y - pad);
      Capture(Some((x, y, r.x + r.w + pad, r.y + r.h + pad)), Point(x, y))
  }

  /** For the region of an accepted cache box, the grab is exactly the
      region, and a point `(u, v)` inside the screenshot maps back through
      the offset to a point inside the region. */
  lemma ScreenshotOfCacheBox(cb: Value, u: int, v: int)
    requires DecideCacheBox(cb).keep
    ensures var r := DecideCacheBox(cb).region.value; var c := Screenshot(Some(r));
      && c.bbox == Some((r.x, r.y, r.x + r.w, r.y + r.h))
      && (0 <= u < r.w && 0 <= v < r.h ==>
            r.x <= u + c.offset.x < r.x + r.w && r.y <= v + c.offset.y < r.y + r.h)
  {
    CacheBoxRegionCoversBox(cb);
  }

  /** The crop window `(l, t, r, b)` of `quick_check_cv2` for a template of
      size `tw` x `th` around a cached screen point, clamped to a screenshot
      of `width` x `height`; `None` when the clamped window is empty. */
  function QuickCheckWindow(tw: nat, th: nat, target: Point, offset: Point, width: nat, height: nat)
    : (win: Option<(int, int, int, int)>)
    ensures win.Some? ==>
      var (l, t, r, b) := win.value;
      0 <= l < r <= width && 0 <= t < b <= height
    ensures win.Some? ==>
      var (l, t, r, b) := win.value;
      var rel := Point(target.x - offset.x, target.y - offset.y);
      rel.x - (tw / 2 + 15) <= l && r <= rel.x + (tw / 2 + 15)
      && rel.y - (th / 2 + 15) <= t && b <= rel.y + (th / 2 + 15)
    ensures var rel := Point(target.x - offset.x, target.y - offset.y);
      0 <= rel.x < width && 0 <= rel.y < height ==>
        win.Some? && win.value.0 <= rel.x < win.value.2 && win.value.1 <= rel.y < win.value.3
  {
    var padW := tw / 2 + 15;
    var padH := th / 2 + 15;
    var relX := target.x - offset.x;
    var relY := target.y - offset.y;
    var l := Max(0, relX - padW);
    var t := Max(0, relY - padH);
    var r := Min(width, relX + padW);
    var b := Min(height, relY + padH);
    if r <= l || b <= t then None else Some((l, t, r, b))
  }

  /** `_finish_selection`: the dragged corners are normalised so that x1 <= x2
      and y1 <= y2; the selection changes only when both extents exceed 5. */
  function FinishSelection(start: Point, cur: Point, selection: Option<seq<int>>): (r: Option<seq<int>>)
    ensures r != selection ==> r.Some? && |r.value| == 4
    ensures r != selection ==>
      && r.value[0] <= r.value[2] && r.value[1] <= r.value[3]
      && r.value[2] - r.value[0] > 5 && r.value[3] - r.value[1] > 5
      && {r.value[0], r.value[2]} == {start.x, cur.x} && {r.value[1], r.value[3]} == {start.y, cur.y}
    ensures (Max(start.x, cur.x) - Min(start.x, cur.x) <= 5 || Max(start.y, cur.y) - Min(start.y, cur.y) <= 5)
      ==> r == selection
  {
    var x1 := Min(start.x, cur.x);
    var y1 := Min(start.y, cur.y);
    var x2 := Max(start.x, cur.x);
    var y2 := Max(start.y, cur.y);
    if x2 - x1 > 5 && y2 - y1 > 5 then Some([x1, y1, x2, y2]) else selection
  }

  /** The selected rectangle does not depend on the drag direction. */
  lemma FinishSelectionSymmetric(start: Point, cur: Point, selection: Option<seq<int>>)
    ensures FinishSelection(start, cur, selection) == FinishSelection(cur, start, selection)
    ensures FinishSelection(start, cur, selection)
         == FinishSelection(Point(start.x, cur.y), Point(cur.x, start.y), selection)
  {
  }

  /** The full-width comma U+FF0C, accepted as a separator. */
  const FullWidthComma: char := '\U{FF0C}'

  function ReplaceChar(s: string, from: char, to: char): (r: string)
    ensures |r| == |s|
    ensures from != to ==> from !in r
  {
    seq(|s|, i requires 0 <= i < |s| => if s[i] == from then to else s[i])
  }

  /** `[int(x.strip()) for x in parts if x.strip()]`, or `None` when one of the
      non-blank segments is not an integer. */
  function ParseSegments(parts: seq<string>): (r: Option<seq<int>>)
    ensures r.Some? ==> |r.value| <= |parts|
    ensures (forall i :: 0 <= i < |parts| ==> |Strip(parts[i])| > 0) && r.Some? ==> |r.value| == |parts|
  {
    if |parts| == 0 then Some([])
    else PrependSegment(Strip(parts[0]), ParseSegments(parts[1..]))
  }

  /** One stripped segment in front of the numbers read from the rest:
      skipped when blank, spoiling the list when not an integer. */
  function PrependSegment(head: string, rest: Option<seq<int>>): (r: Option<seq<int>>)
    ensures r.Some? ==> rest.Some? && |r.value| == |rest.value| + (if |head| == 0 then 0 else 1)
  {
    if |head| == 0 then rest
    else match ParseInt(head)
      case None => None
      case Some(v) => if rest.None? then None else Some([v] + rest.value)
  }

  /** One non-blank segment that is not an integer spoils the whole list. */
  lemma {:induction false} NonIntegerSegmentRejected(parts: seq<string>, k: nat)
    requires k < |parts| && |Strip(parts[k])| > 0 && ParseInt(Strip(parts[k])).None?
    ensures ParseSegments(parts) == None
    decreases k
  {
    var head := Strip(parts[0]);
    if k > 0 {
      assert parts[1..][k - 1] == parts[k];
      NonIntegerSegmentRejected(parts[1..], k - 1);
      assert ParseSegments(parts[1..]).None?;
    } else {
      assert ParseInt(head).None?;
    }
  }

  /** `parse_region_string`: four comma-separated integers, blank segments
      skipped, `None` for an empty string, a wrong count or a non-integer. */
  function ParseRegionString(s: string): (r: Option<seq<int>>)
    ensures |s| == 0 ==> r.None?
    ensures r.Some? ==> |r.value| == 4
  {
    if |s| == 0 then None
    else
      var parts := Split(ReplaceChar(s, FullWidthComma, ','), ',');
      match ParseSegments(parts)
      case None => None
      case Some(coords) => if |coords| == 4 then Some(coords) else None
  }

  /** A full-width comma separates exactly as `,` does. */
  lemma {:induction false} FullWidthCommaAsComma(s: string)
    ensures ParseRegionString(s) == ParseRegionString(ReplaceChar(s, FullWidthComma, ','))
  {
    var t := ReplaceChar(s, FullWidthComma, ',');
    assert ReplaceChar(t, FullWidthComma, ',') == t;
  }

  /** Whitespace after the last number, an information separator
      included, is stripped with its segment and changes nothing. */
  lemma TrailingSpaceIgnored(s: string, c: char)
    requires IsSpace(c)
    ensures ParseRegionString(s + [c]) == ParseRegionString(s)
  {
    ReplaceCharConcat(s, [c], FullWidthComma, ',');
    assert ReplaceChar([c], FullWidthComma, ',') == [c];
    var t := ReplaceChar(s, FullWidthComma, ',');
    SplitAppend(t, ',', c);
    StripAppendSpace(Split(t, ',')[|Split(t, ',')| - 1], c);
    LastSegmentSpace(Split(t, ','), c);
  }

  /** Whitespace appended to the last segment is stripped with it. */
  lemma LastSegmentSpace(p: seq<string>, c: char)
    requires |p| >= 1 && IsSpace(c)
    ensures ParseSegments(p[..|p| - 1] + [p[|p| - 1] + [c]]) == ParseSegments(p)
  {
    var init := p[..|p| - 1];
    var last := p[|p| - 1];
    StripAppendSpace(last, c);
    SameStripSameSegment(last + [c], last);
    ParseSegmentsConcat(init, [last + [c]]);
    ParseSegmentsConcat(init, [last]);
    InitLast(p);
  }

  lemma InitLast<T>(p: seq<T>)
    requires |p| >= 1
    ensures p[..|p| - 1] + [p[|p| - 1]] == p
  {
  }

  /** A lone segment is read through its stripped text only. */
  lemma SameStripSameSegment(x: string, y: string)
    requires Strip(x) == Strip(y)
    ensures ParseSegments([x]) == ParseSegments([y])
  {
    assert [x][1..] == [y][1..];
  }

  /** A region followed by an information separator, as `1,2,3,4` then
      0x1C, still reads as its four numbers. */
  lemma SeparatorAfterRegion(xs: seq<int>)
    requires |xs| == 4
    ensures ParseRegionString(FormatRegion(xs) + ['\U{1C}']) == Some(xs)
  {
    ParseFormatRegion(xs);
    TrailingSpaceIgnored(FormatRegion(xs), '\U{1C}');
  }

  /** Two lists of numbers read from adjacent segments: concatenated,
      or `None` when either side failed. */
  function Both(x: Option<seq<int>>, y: Option<seq<int>>): Option<seq<int>>
  {
    if x.Some? && y.Some? then Some(x.value + y.value) else None
  }

  lemma PrependBoth(head: string, x: Option<seq<int>>, y: Option<seq<int>>)
    ensures PrependSegment(head, Both(x, y)) == Both(PrependSegment(head, x), y)
  {
    if |head| > 0 && ParseInt(head).Some? && x.Some? && y.Some? {
      var v := ParseInt(head).value;
      assert [v] + (x.value + y.value) == ([v] + x.value) + y.value;
    }
  }

  /** Segments are read independently: the numbers of a concatenation are
      the two lists of numbers concatenated, and one bad segment on either
      side spoils the whole. */
  lemma {:induction false} ParseSegmentsConcat(a: seq<string>, b: seq<string>)
    ensures ParseSegments(a + b) == Both(ParseSegments(a), ParseSegments(b))
    decreases |a|
  {
    if |a| == 0 {
      assert a + b == b;
      if ParseSegments(b).Some? {
        assert [] + ParseSegments(b).value == ParseSegments(b).value;
      }
    } else {
      var ab := a + b;
      assert ab[0] == a[0];
      assert ab[1..] == a[1..] + b;
      ParseSegmentsConcat(a[1..], b);
      PrependBoth(Strip(a[0]), ParseSegments(a[1..]), ParseSegments(b));
    }
  }

  /** A blank segment anywhere, as between the commas of `1,,2`, is
      skipped. */
  lemma {:induction false} BlankSegmentSkipped(a: seq<string>, b: string, c: seq<string>)
    requires |Strip(b)| == 0
    ensures ParseSegments(a + [b] + c) == ParseSegments(a + c)
  {
    assert ParseSegments([b] + c) == ParseSegments(c) by {
      assert ([b] + c)[1..] == c;
    }
    assert a + [b] + c == a + ([b] + c);
    ParseSegmentsConcat(a, [b] + c);
    ParseSegmentsConcat(a, c);
  }

  /** `[str(x) for x in xs]`. */
  function Numerals(xs: seq<int>): (r: seq<string>)
    ensures |r| == |xs|
    ensures forall i :: 0 <= i < |xs| ==> r[i] == IntToString(xs[i])
  {
    if |xs| == 0 then [] else [IntToString(xs[0])] + Numerals(xs[1..])
  }

  /** The text form `x1,y1,x2,y2` of a region. */
  function FormatRegion(xs: seq<int>): string
    requires |xs| == 4
  {
    Join(Numerals(xs), ",")
  }

  lemma {:induction false} ParseSegmentsOfNumerals(xs: seq<int>)
    ensures ParseSegments(Numerals(xs)) == Some(xs)
    decreases |xs|
  {
    if |xs| > 0 {
      var parts := Numerals(xs);
      ParseSegmentsOfNumerals(xs[1..]);
      assert parts[1..] == Numerals(xs[1..]);
      ParseIntOfIntToString(xs[0]);
      IntToStringHasNoSpace(xs[0]);
      NoSpaceStripsToItself(parts[0]);
      var head := Strip(parts[0]);
      assert head == IntToString(xs[0]) && |head| > 0;
      assert ParseInt(head) == Some(xs[0]);
      assert ParseSegments(parts) == PrependSegment(head, Some(xs[1..]));
      assert [xs[0]] + xs[1..] == xs;
    }
  }

  lemma IntToStringHasNoSpace(i: int)
    ensures |IntToString(i)| > 0
    ensures forall k :: 0 <= k < |IntToString(i)| ==> !IsSpace(IntToString(i)[k]) && IntToString(i)[k] != ','
    ensures FullWidthComma !in IntToString(i)
  {
    var d := NatToString(if i < 0 then -i else i);
    assert forall k :: 0 <= k < |d| ==> IsDigit(d[k]);
    if i < 0 {
      assert IntToString(i) == "-" + d;
      forall k | 0 <= k < |IntToString(i)|
        ensures !IsSpace(IntToString(i)[k]) && IntToString(i)[k] != ',' && IntToString(i)[k] != FullWidthComma
      {
        if k > 0 { assert IntToString(i)[k] == d[k - 1]; }
      }
    }
  }

  /** Formatting a region and parsing it back gives the same four numbers. */
  lemma {:induction false} ParseFormatRegion(xs: seq<int>)
    requires |xs| == 4
    ensures ParseRegionString(FormatRegion(xs)) == Some(xs)
  {
    var parts := Numerals(xs);
    var s := FormatRegion(xs);
    forall i | 0 <= i < 4 ensures ',' !in parts[i] && FullWidthComma !in parts[i] {
      IntToStringHasNoSpace(xs[i]);
    }
    JoinAvoids(parts, ",", FullWidthComma);
    assert ReplaceChar(s, FullWidthComma, ',') == s;
    IntToStringHasNoSpace(xs[0]);
    assert |s| > 0 by { assert s == parts[0] + "," + Join(parts[1..], ","); }
    SplitJoin(parts, ',');
    assert Split(s, ',') == parts;
    ParseSegmentsOfNumerals(xs);
  }

  /** Numerals around a blank segment read as the numbers on both sides. */
  lemma {:induction false} NumeralsAroundBlank(xs: seq<int>, b: string, ys: seq<int>)
    requires |Strip(b)| == 0
    ensures ParseSegments(Numerals(xs) + [b] + Numerals(ys)) == Some(xs + ys)
  {
    BlankSegmentSkipped(Numerals(xs), b, Numerals(ys));
    ParseSegmentsConcat(Numerals(xs), Numerals(ys));
    ParseSegmentsOfNumerals(xs);
    ParseSegmentsOfNumerals(ys);
  }

  lemma ReplaceCharConcat(x: string, y: string, from: char, to: char)
    ensures ReplaceChar(x + y, from, to) == ReplaceChar(x, from, to) + ReplaceChar(y, from, to)
  {
  }

  lemma ReplaceCharAbsent(x: string, from: char, to: char)
    requires from !in x
    ensures ReplaceChar(x, from, to) == x
  {
  }

  /** The text `a，b,,c,d` for four integers. */
  function MixedCommas(a: int, b: int, c: int, d: int): string
  {
    IntToString(a) + [FullWidthComma] + (IntToString(b) + ",," + IntToString(c) + "," + IntToString(d))
  }

  /** Its segments: the numerals with a blank between the second and third. */
  function MixedSegments(a: int, b: int, c: int, d: int): seq<string>
  {
    Numerals([a, b]) + [""] + Numerals([c, d])
  }

  lemma NumeralsPair(x: int, y: int)
    ensures Numerals([x, y]) == [IntToString(x), IntToString(y)]
  {
    assert [x, y][1..] == [y];
  }

  lemma {:induction false} NumeralsCommaFree(xs: seq<int>)
    ensures forall i :: 0 <= i < |xs| ==> ',' !in Numerals(xs)[i]
  {
    forall i | 0 <= i < |xs| ensures ',' !in Numerals(xs)[i] {
      IntToStringHasNoSpace(xs[i]);
    }
  }

  lemma {:induction false} MixedCommasReplaced(a: int, b: int, c: int, d: int)
    ensures ReplaceChar(MixedCommas(a, b, c, d), FullWidthComma, ',') == Join(MixedSegments(a, b, c, d), ",")
  {
    var sa, sb, sc, sd := IntToString(a), IntToString(b), IntToString(c), IntToString(d);
    NumeralsPair(a, b);
    NumeralsPair(c, d);
    assert MixedSegments(a, b, c, d) == [sa, sb, "", sc, sd];
    IntToStringHasNoSpace(a);
    IntToStringHasNoSpace(b);
    IntToStringHasNoSpace(c);
    IntToStringHasNoSpace(d);
    var rest := sb + ",," + sc + "," + sd;
    assert FullWidthComma !in rest;
    ReplaceCharConcat(sa + [FullWidthComma], rest, FullWidthComma, ',');
    ReplaceCharConcat(sa, [FullWidthComma], FullWidthComma, ',');
    ReplaceCharAbsent(sa, FullWidthComma, ',');
    ReplaceCharAbsent(rest, FullWidthComma, ',');
    assert ReplaceChar([FullWidthComma], FullWidthComma, ',') == ",";
    JoinFive(sa, sb, sc, sd);
  }

  lemma {:induction false} MixedCommasSplit(a: int, b: int, c: int, d: int)
    ensures Split(Join(MixedSegments(a, b, c, d), ","), ',') == MixedSegments(a, b, c, d)
  {
    var parts := MixedSegments(a, b, c, d);
    var left, right := Numerals([a, b]), Numerals([c, d]);
    NumeralsCommaFree([a, b]);
    NumeralsCommaFree([c, d]);
    forall i | 0 <= i < |parts| ensures ',' !in parts[i] {
      if i < 2 {
        assert parts[i] == left[i];
      } else if i > 2 {
        assert parts[i] == right[i - 3];
      }
    }
    SplitJoin(parts, ',');
  }

  /** Four integers written with a full-width comma after the first and
      an empty segment after the second, as in `1，2,,3,4`, read as the
      four integers. */
  lemma {:induction false} MixedCommasParse(a: int, b: int, c: int, d: int)
    ensures ParseRegionString(MixedCommas(a, b, c, d)) == Some([a, b, c, d])
  {
    var s := MixedCommas(a, b, c, d);
    MixedCommasReplaced(a, b, c, d);
    MixedCommasSplit(a, b, c, d);
    var parts := Split(ReplaceChar(s, FullWidthComma, ','), ',');
    assert parts == MixedSegments(a, b, c, d);
    MixedSegmentsParse(a, b, c, d);
    assert |s| > 0;
  }

  lemma {:induction false} MixedSegmentsParse(a: int, b: int, c: int, d: int)
    ensures ParseSegments(MixedSegments(a, b, c, d)) == Some([a, b, c, d])
  {
    assert |Strip("")| == 0;
    NumeralsAroundBlank([a, b], "", [c, d]);
    assert [a, b] + [c, d] == [a, b, c, d];
  }

  lemma JoinFive(sa: string, sb: string, sc: string, sd: string)
    ensures Join([sa, sb, "", sc, sd], ",") == sa + "," + (sb + ",," + sc + "," + sd)
  {
    assert Join([sd], ",") == sd;
    assert Join([sc, sd], ",") == sc + "," + sd by { assert [sc, sd][1..] == [sd]; }
    assert Join(["", sc, sd], ",") == "" + "," + (sc + "," + sd) by { assert ["", sc, sd][1..] == [sc, sd]; }
    assert Join([sb, "", sc, sd], ",") == sb + "," + Join(["", sc, sd], ",") by {
      assert [sb, "", sc, sd][1..] == ["", sc, sd];
    }
    assert Join([sa, sb, "", sc, sd], ",") == sa + "," + Join([sb, "", sc, sd], ",") by {
      assert [sa, sb, "", sc, sd][1..] == [sb, "", sc, sd];
    }
  }
}
