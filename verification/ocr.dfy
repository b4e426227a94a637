/** The OCR text resolver of ocr_engine.py: target normalisation, the word
    matcher shared by the three backends (a direct substring pass, then a
    merge of adjacent words), the backends' conversion of their raw output
    into words, the engine cascade of `find_text_location`, and
    `get_available_engines`. What each recogniser reads off the screen is an
    oracle: its raw output is a parameter. */
module Ocr {
  import opened Wrappers
  import opened Geometry
  import opened Text
  import opened Values

  // ---------------------------------------------------------------------
  // Normalisation
  // ---------------------------------------------------------------------

  /** A recognised or requested text with whitespace removed and lowercased. */
  function Normalise(s: string): (r: string)
    ensures |r| <= |s|
    ensures forall i :: 0 <= i < |r| ==> !IsSpace(r[i]) && !IsUpperLetter(r[i])
    ensures |r| == 0 <==> forall i :: 0 <= i < |s| ==> IsSpace(s[i])
  {
    Lower(RemoveSpaces(s))
  }

  /** The search key: None for a falsy or non-string target, and for one
      that is all whitespace. */
  function NormaliseTarget(target: Value): (r: Option<string>)
    ensures r.Some? <==> target.Str? && exists i :: 0 <= i < |target.s| && !IsSpace(target.s[i])
    ensures r.Some? ==> |r.value| > 0 && r.value == Normalise(target.s)
  {
    if !target.Str? || |target.s| == 0 then None
    else
      var t := Normalise(target.s);
      if |t| == 0 then None else Some(t)
  }

  // ---------------------------------------------------------------------
  // Word matching
  // ---------------------------------------------------------------------

  /** A recognised word: its normalised text and the centre of its box in
      screenshot coordinates. */
  datatype Word = Word(text: string, centre: Point)

  /** A successful lookup: the screen position and the full recognised text. */
  datatype Found = Found(pos: Point, fullText: string)

  /** The first word, from `k` on, whose text contains the target. */
  function DirectPass(words: seq<Word>, target: string, k: nat): (r: Option<nat>)
    requires k <= |words|
    ensures r.Some? ==> k <= r.value < |words| && Contains(words[r.value].text, target)
    ensures r.Some? ==> forall i :: k <= i < r.value ==> !Contains(words[i].text, target)
    ensures r.None? ==> forall i :: k <= i < |words| ==> !Contains(words[i].text, target)
    decreases |words| - k
  {
    if k == |words| then None
    else if Contains(words[k].text, target) then Some(k)
    else DirectPass(words, target, k + 1)
  }

  /** The merge pass joins a starting word with at most this many words in all. */
  const MaxMergeWords: nat := 5

  /** The concatenated texts of a run of words. */
  function Texts(ws: seq<Word>): string
  {
    if |ws| == 0 then "" else ws[0].text + Texts(ws[1..])
  }

  lemma {:induction false} TextsSnoc(ws: seq<Word>, w: Word)
    ensures Texts(ws + [w]) == Texts(ws) + w.text
  {
    if |ws| > 0 {
      assert (ws + [w])[1..] == ws[1..] + [w];
      TextsSnoc(ws[1..], w);
    } else {
      assert ws + [w] == [w];
    }
  }

  /** Words i..j (at least two, at most five) merge into exactly the target,
      and word i alone is a prefix of it. */
  predicate MergeHit(words: seq<Word>, target: string, i: int, j: int)
  {
    0 <= i < j < |words| && j < i + MaxMergeWords && words[i].text <= target
    && Texts(words[i..j + 1]) == target
  }

  /** The inner loop of the merge pass at start `i`, from end index `j` on,
      with `merged` the texts joined so far. */
  function MergeEnd(words: seq<Word>, target: string, i: nat, j: nat, merged: string): (r: Option<nat>)
    requires i < j <= |words| && words[i].text <= target
    requires merged == Texts(words[i..j])
    ensures r.Some? ==> j <= r.value && MergeHit(words, target, i, r.value)
    ensures r.Some? ==> forall e :: j <= e < r.value ==> !MergeHit(words, target, i, e)
    ensures r.None? ==> forall e :: j <= e ==> !MergeHit(words, target, i, e)
    decreases |words| - j
  {
    if j >= Min(i + MaxMergeWords, |words|) then None
    else
      var m := merged + words[j].text;
      assert words[i..j + 1] == words[i..j] + [words[j]];
      TextsSnoc(words[i..j], words[j]);
      if m == target then Some(j) else MergeEnd(words, target, i, j + 1, m)
  }

  /** The merge pass from start index `i` on: the first start, and for it the
      first end, whose merged texts equal the target. */
  function MergePass(words: seq<Word>, target: string, i: nat): (r: Option<(nat, nat)>)
    requires i <= |words|
    ensures r.Some? ==> i <= r.value.0 && MergeHit(words, target, r.value.0, r.value.1)
    ensures r.Some? ==> forall s, e :: i <= s < r.value.0 ==> !MergeHit(words, target, s, e)
    ensures r.Some? ==> forall e :: e < r.value.1 ==> !MergeHit(words, target, r.value.0, e)
    ensures r.None? ==> forall s, e :: i <= s ==> !MergeHit(words, target, s, e)
    ensures i == 0 && r.Some? ==> FirstMerge(words, target, r.value.0, r.value.1)
    decreases |words| - i
  {
    if i == |words| then None
    else if !(words[i].text <= target) then MergePass(words, target, i + 1)
    else
      assert words[i..i + 1] == [words[i]];
      match MergeEnd(words, target, i, i + 1, words[i].text)
      case Some(e) => Some((i, e))
      case None => MergePass(words, target, i + 1)
  }

  function Sum(xs: seq<int>): int
  {
    if |xs| == 0 then 0 else xs[0] + Sum(xs[1..])
  }

  function MinOf(xs: seq<int>): (m: int)
    requires |xs| > 0
    ensures m in xs && forall k :: 0 <= k < |xs| ==> m <= xs[k]
  {
    if |xs| == 1 then xs[0] else Min(xs[0], MinOf(xs[1..]))
  }

  function MaxOf(xs: seq<int>): (m: int)
    requires |xs| > 0
    ensures m in xs && forall k :: 0 <= k < |xs| ==> xs[k] <= m
  {
    if |xs| == 1 then xs[0] else Max(xs[0], MaxOf(xs[1..]))
  }

  lemma SumAtLeast(xs: seq<int>, lo: int)
    requires forall k :: 0 <= k < |xs| ==> lo <= xs[k]
    ensures |xs| * lo <= Sum(xs)
  {
    if |xs| > 0 {
      SumAtLeast(xs[1..], lo);
      assert |xs| * lo == lo + (|xs| - 1) * lo;
    }
  }

  lemma SumAtMost(xs: seq<int>, hi: int)
    requires forall k :: 0 <= k < |xs| ==> xs[k] <= hi
    ensures Sum(xs) <= |xs| * hi
  {
    if |xs| > 0 {
      SumAtMost(xs[1..], hi);
      assert |xs| * hi == hi + (|xs| - 1) * hi;
    }
  }

  lemma MulLe(a: nat, b: int, c: int)
    requires b <= c
    ensures a * b <= a * c
  {
    var d: nat := c - b;
    assert a * c == a * b + a * d;
  }

  lemma DivBetween(s: int, n: int, lo: int, hi: int)
    requires n > 0 && n * lo <= s <= n * hi
    ensures lo <= s / n <= hi
  {
    var q := FloorDiv(s, n);
    if q < lo {
      MulLe(n, q + 1, lo);
      assert false;
    }
    if hi < q {
      MulLe(n, hi + 1, q);
      assert false;
    }
  }

  /** The floor average of a non-empty list lies between its least and its
      greatest element. */
  lemma FloorAverageBetween(xs: seq<int>)
    requires |xs| > 0
    ensures MinOf(xs) <= Sum(xs) / |xs| <= MaxOf(xs)
  {
    SumAtLeast(xs, MinOf(xs));
    SumAtMost(xs, MaxOf(xs));
    DivBetween(Sum(xs), |xs|, MinOf(xs), MaxOf(xs));
  }

  function Xs(ws: seq<Word>): (r: seq<int>)
    ensures |r| == |ws| && forall k :: 0 <= k < |ws| ==> r[k] == ws[k].centre.x
  {
    seq(|ws|, k requires 0 <= k < |ws| => ws[k].centre.x)
  }

  function Ys(ws: seq<Word>): (r: seq<int>)
    ensures |r| == |ws| && forall k :: 0 <= k < |ws| ==> r[k] == ws[k].centre.y
  {
    seq(|ws|, k requires 0 <= k < |ws| => ws[k].centre.y)
  }

  /** The floor-averaged centre of merged words. */
  function AverageCentre(ws: seq<Word>): Point
    requires |ws| > 0
  {
    Point(Sum(Xs(ws)) / |ws|, Sum(Ys(ws)) / |ws|)
  }

  /** The averaged centre lies inside the range spanned by the words'
      centres. */
  lemma AverageCentreWithin(ws: seq<Word>)
    requires |ws| > 0
    ensures MinOf(Xs(ws)) <= AverageCentre(ws).x <= MaxOf(Xs(ws))
    ensures MinOf(Ys(ws)) <= AverageCentre(ws).y <= MaxOf(Ys(ws))
  {
    FloorAverageBetween(Xs(ws));
    FloorAverageBetween(Ys(ws));
  }

  /** Word k is the first word containing the target. */
  predicate FirstDirect(words: seq<Word>, target: string, k: int)
  {
    0 <= k < |words| && Contains(words[k].text, target)
    && forall i :: 0 <= i < k ==> !Contains(words[i].text, target)
  }

  /** Words s..e are the merge the pass finds first: no earlier start, and
      no earlier end at this start, merges into the target. */
  predicate FirstMerge(words: seq<Word>, target: string, s: int, e: int)
  {
    MergeHit(words, target, s, e)
    && (forall s', e' :: 0 <= s' < s && s' < e' < |words| ==> !MergeHit(words, target, s', e'))
    && (forall e' :: s < e' < e ==> !MergeHit(words, target, s, e'))
  }

  /** The matcher shared by the backends: the first word containing the
      target wins; only when there is none is the merge pass consulted.
      The lemmas below characterise the result. */
  function MatchWords(words: seq<Word>, target: string, offset: Point, fullText: string): (r: Option<Found>)
    ensures r.Some? ==> r.value.fullText == fullText
  {
    match DirectPass(words, target, 0)
    case Some(k) => Some(Found(Add(offset, words[k].centre), fullText))
    case None =>
      var merge := MergePass(words, target, 0);
      if merge.None? then None
      else
        var (s, e) := merge.value;
        Some(Found(Add(offset, AverageCentre(words[s..e + 1])), fullText))
  }

  /** The first word containing the target wins, at the offset plus its
      box centre. */
  lemma MatchWordsDirect(words: seq<Word>, target: string, offset: Point, fullText: string, k: int)
    requires FirstDirect(words, target, k)
    ensures MatchWords(words, target, offset, fullText) == Some(Found(Add(offset, words[k].centre), fullText))
  {
    var d := DirectPass(words, target, 0);
    assert d.Some?;
    assert d.value == k;
  }

  /** With no word containing the target, the first merge wins, at the
      offset plus the floor average of the merged words' centres. */
  lemma MatchWordsMerge(words: seq<Word>, target: string, offset: Point, fullText: string, s: int, e: int)
    requires forall k :: 0 <= k < |words| ==> !Contains(words[k].text, target)
    requires FirstMerge(words, target, s, e)
    ensures MatchWords(words, target, offset, fullText)
         == Some(Found(Add(offset, AverageCentre(words[s..e + 1])), fullText))
  {
    assert DirectPass(words, target, 0).None?;
    FirstMergeFound(words, target, s, e);
  }

  /** The merge pass finds the first merge. */
  lemma FirstMergeFound(words: seq<Word>, target: string, s: int, e: int)
    requires FirstMerge(words, target, s, e)
    ensures MergePass(words, target, 0) == Some((s as nat, e as nat))
  {
    var m := MergePass(words, target, 0);
    assert m.Some?;
    assert m.value.0 == s;
    assert m.value.1 == e;
  }

  /** With neither a containing word nor a merge, there is no result. */
  lemma MatchWordsNone(words: seq<Word>, target: string, offset: Point, fullText: string)
    requires forall k :: 0 <= k < |words| ==> !Contains(words[k].text, target)
    requires forall s, e :: !MergeHit(words, target, s, e)
    ensures MatchWords(words, target, offset, fullText).None?
  {
    assert DirectPass(words, target, 0).None?;
    assert MergePass(words, target, 0).None?;
  }

  /** The full recognised text: the original texts joined by single spaces. */
  function FullText(texts: seq<string>): string
  {
    Join(texts, " ")
  }

  // ---------------------------------------------------------------------
  // Windows OCR
  // ---------------------------------------------------------------------

  datatype WinRect = WinRect(x: int, y: int, width: int, height: int)

  /** A word entry as returned by Windows OCR; either key may be missing. */
  datatype WinWord = WinWord(text: Option<string>, rect: Option<WinRect>)

  /** The recogniser's reply: lines of words, or something that is not a
      dictionary. A missing `lines` or `words` key is an empty list. */
  datatype WinResponse = WinLines(lines: seq<seq<WinWord>>) | WinNotADict

  predicate WinUsable(w: WinWord) { w.text.Some? && w.rect.Some? }

  function Flatten<T>(xss: seq<seq<T>>): (r: seq<T>)
    ensures forall k :: 0 <= k < |r| ==> exists i :: 0 <= i < |xss| && r[k] in xss[i]
  {
    if |xss| == 0 then [] else xss[0] + Flatten(xss[1..])
  }

  /** The words carrying both a text and a bounding rectangle, in order. */
  function WinKept(ws: seq<WinWord>): (r: seq<WinWord>)
    ensures |r| <= |ws|
    ensures forall k :: 0 <= k < |r| ==> WinUsable(r[k]) && r[k] in ws
    ensures forall k :: 0 <= k < |ws| && WinUsable(ws[k]) ==> ws[k] in r
    ensures (forall k :: 0 <= k < |ws| ==> WinUsable(ws[k])) ==> r == ws
  {
    if |ws| == 0 then []
    else (if WinUsable(ws[0]) then [ws[0]] else []) + WinKept(ws[1..])
  }

  /** The filter works piecewise, so the kept words appear in the order
      the recogniser gave them. */
  lemma {:induction false} WinKeptConcat(a: seq<WinWord>, b: seq<WinWord>)
    ensures WinKept(a + b) == WinKept(a) + WinKept(b)
    decreases |a|
  {
    if |a| == 0 {
      assert a + b == b;
    } else {
      assert (a + b)[1..] == a[1..] + b;
      WinKeptConcat(a[1..], b);
    }
  }

  /** A single word is kept exactly when it has both a text and a box. */
  lemma WinKeptOne(w: WinWord)
    ensures WinKept([w]) == if WinUsable(w) then [w] else []
  {
  }

  function WinWordOf(w: WinWord): (r: Word)
    requires WinUsable(w)
    ensures r.text == Normalise(w.text.value)
  {
    var b := w.rect.value;
    Word(Normalise(w.text.value), Point(b.x + b.width / 2, b.y + b.height / 2))
  }

  function WinWords(ws: seq<WinWord>): (r: seq<Word>)
    requires forall k :: 0 <= k < |ws| ==> ws[k].text.Some? && ws[k].rect.Some?
    ensures |r| == |ws| && forall k :: 0 <= k < |ws| ==> r[k] == WinWordOf(ws[k])
  {
    seq(|ws|, k requires 0 <= k < |ws| => WinWordOf(ws[k]))
  }

  function WinTexts(ws: seq<WinWord>): (r: seq<string>)
    requires forall k :: 0 <= k < |ws| ==> ws[k].text.Some? && ws[k].rect.Some?
    ensures |r| == |ws| && forall k :: 0 <= k < |ws| ==> r[k] == ws[k].text.value
  {
    seq(|ws|, k requires 0 <= k < |ws| => ws[k].text.value)
  }

  /** `_find_text_winocr`: the kept words are matched, and a result carries
      the space-join of their original texts; with no usable word there is
      no result. */
  function WinFind(res: WinResponse, target: string, offset: Point): (r: Option<Found>)
    ensures res.WinNotADict? ==> r.None?
    ensures r.Some? ==> r.value.fullText == FullText(WinTexts(WinKept(Flatten(res.lines))))
    ensures res.WinLines? && |WinKept(Flatten(res.lines))| == 0 ==> r.None?
  {
    if res.WinNotADict? then None
    else
      var kept := WinKept(Flatten(res.lines));
      MatchWords(WinWords(kept), target, offset, FullText(WinTexts(kept)))
  }

  // ---------------------------------------------------------------------
  // RapidOCR
  // ---------------------------------------------------------------------

  /** A detected box: a polygon of corner points, or a value that is not a
      list (skipped). */
  datatype RapidBox = Polygon(points: seq<Point>) | NotAList

  datatype RapidItem = RapidItem(box: RapidBox, text: string)

  /** An axis-aligned box [x1, y1, x2, y2]. */
  datatype Box = Box(x1: int, y1: int, x2: int, y2: int)

  function PointXs(ps: seq<Point>): (r: seq<int>)
    ensures |r| == |ps| && forall k :: 0 <= k < |ps| ==> r[k] == ps[k].x
  {
    seq(|ps|, k requires 0 <= k < |ps| => ps[k].x)
  }

  function PointYs(ps: seq<Point>): (r: seq<int>)
    ensures |r| == |ps| && forall k :: 0 <= k < |ps| ==> r[k] == ps[k].y
  {
    seq(|ps|, k requires 0 <= k < |ps| => ps[k].y)
  }

  /** A polygon normalised to [min x, min y, max x, max y]: the smallest
      box holding every corner, so x1 <= x2 and y1 <= y2. */
  function BoundingBox(ps: seq<Point>): (b: Box)
    requires |ps| > 0
    ensures b.x1 <= b.x2 && b.y1 <= b.y2
    ensures forall k :: 0 <= k < |ps| ==> b.x1 <= ps[k].x <= b.x2 && b.y1 <= ps[k].y <= b.y2
    ensures exists k :: 0 <= k < |ps| && ps[k].x == b.x1
    ensures exists k :: 0 <= k < |ps| && ps[k].x == b.x2
    ensures exists k :: 0 <= k < |ps| && ps[k].y == b.y1
    ensures exists k :: 0 <= k < |ps| && ps[k].y == b.y2
  {
    var xs := PointXs(ps);
    var ys := PointYs(ps);
    Box(MinOf(xs), MinOf(ys), MaxOf(xs), MaxOf(ys))
  }

  /** The floor midpoint of a box. */
  function BoxCentre(b: Box): (c: Point)
    requires b.x1 <= b.x2 && b.y1 <= b.y2
    ensures b.x1 <= c.x <= b.x2 && b.y1 <= c.y <= b.y2
  {
    Point((b.x1 + b.x2) / 2, (b.y1 + b.y2) / 2)
  }

  predicate RapidUsable(it: RapidItem) { it.box.Polygon? && |it.box.points| > 0 }

  /** The items whose box is a list, normalised; any list box with no
      corners makes the conversion fail (taking the minimum of nothing). */
  function RapidWords(items: seq<RapidItem>): (r: Option<seq<Word>>)
    ensures r.Some? <==> forall k :: 0 <= k < |items| ==> items[k].box.Polygon? ==> |items[k].box.points| > 0
    ensures r.Some? ==> |r.value| <= |items|
    ensures r.Some? ==> forall k :: 0 <= k < |r.value| ==>
      exists j :: 0 <= j < |items| && RapidUsable(items[j]) && r.value[k].text == Normalise(items[j].text)
        && r.value[k].centre == BoxCentre(BoundingBox(items[j].box.points))
  {
    if |items| == 0 then Some([])
    else
      var it := items[0];
      if it.box.Polygon? && |it.box.points| == 0 then None
      else
        match RapidWords(items[1..])
        case None => None
        case Some(rest) =>
          if it.box.NotAList? then Some(rest)
          else Some([Word(Normalise(it.text), BoxCentre(BoundingBox(it.box.points)))] + rest)
  }

  /** One item with a non-empty polygon as a word: its normalised text at
      the centre of its bounding box. */
  function RapidWord(it: RapidItem): (w: Word)
    requires RapidUsable(it)
    ensures w.text == Normalise(it.text)
    ensures var b := BoundingBox(it.box.points); b.x1 <= w.centre.x <= b.x2 && b.y1 <= w.centre.y <= b.y2
  {
    Word(Normalise(it.text), BoxCentre(BoundingBox(it.box.points)))
  }

  /** `RapidWords` without its contract, for reasoning about pieces. */
  function RapidConvert(items: seq<RapidItem>): Option<seq<Word>>
  {
    if |items| == 0 then Some([])
    else
      var it := items[0];
      if it.box.Polygon? && |it.box.points| == 0 then None
      else
        match RapidConvert(items[1..])
        case None => None
        case Some(rest) =>
          if it.box.NotAList? then Some(rest)
          else Some([RapidWord(it)] + rest)
  }

  lemma {:induction false} RapidConvertSame(items: seq<RapidItem>)
    ensures RapidWords(items) == RapidConvert(items)
    decreases |items|
  {
    if |items| > 0 {
      RapidConvertSame(items[1..]);
    }
  }

  /** The conversion works piecewise: it fails when either part fails, and
      otherwise the words come in item order. */
  lemma RapidWordsConcat(a: seq<RapidItem>, b: seq<RapidItem>)
    ensures RapidWords(a + b) ==
      if RapidWords(a).Some? && RapidWords(b).Some? then Some(RapidWords(a).value + RapidWords(b).value) else None
  {
    RapidConvertSame(a);
    RapidConvertSame(b);
    RapidConvertSame(a + b);
    RapidConvertConcat(a, b);
  }

  lemma {:induction false} RapidConvertConcat(a: seq<RapidItem>, b: seq<RapidItem>)
    ensures RapidConvert(a + b) ==
      if RapidConvert(a).Some? && RapidConvert(b).Some? then Some(RapidConvert(a).value + RapidConvert(b).value) else None
    decreases |a|
  {
    if |a| == 0 {
      assert a + b == b;
      if RapidConvert(b).Some? {
        assert [] + RapidConvert(b).value == RapidConvert(b).value;
      }
    } else {
      RapidConvertConcat(a[1..], b);
      assert (a + b)[1..] == a[1..] + b;
      assert (a + b)[0] == a[0];
      if RapidUsable(a[0]) && RapidConvert(a[1..]).Some? && RapidConvert(b).Some? {
        var w := RapidConvert(a[1..]).value;
        var v := RapidConvert(b).value;
        assert [RapidWord(a[0])] + (w + v) == ([RapidWord(a[0])] + w) + v;
      }
    }
  }

  /** A single item: a non-list box is skipped, an empty polygon fails the
      conversion, any other polygon gives one word. */
  lemma RapidWordsOne(it: RapidItem)
    ensures RapidWords([it]) ==
      if it.box.NotAList? then Some([])
      else if |it.box.points| == 0 then None
      else Some([RapidWord(it)])
  {
    RapidConvertSame([it]);
    assert [it][1..] == [];
    assert RapidConvert([it][1..]) == Some([]);
    if RapidUsable(it) {
      assert [RapidWord(it)] + [] == [RapidWord(it)];
    }
  }

  function RapidTexts(items: seq<RapidItem>): (r: seq<string>)
    ensures |r| == |items| && forall k :: 0 <= k < |items| ==> r[k] == items[k].text
  {
    seq(|items|, k requires 0 <= k < |items| => items[k].text)
  }

  /** `_find_text_rapidocr_internal`: no recognised text means no result;
      a result carries the space-join of every recognised text, including
      those whose box was skipped. */
  function RapidFind(items: seq<RapidItem>, target: string, offset: Point): (r: Option<Found>)
    ensures |items| == 0 ==> r.None?
    ensures (exists k :: 0 <= k < |items| && items[k].box == Polygon([])) ==> r.None?
    ensures r.Some? ==> r.value.fullText == FullText(RapidTexts(items))
  {
    if |items| == 0 then None
    else
      match RapidWords(items)
      case None => None
      case Some(words) => MatchWords(words, target, offset, FullText(RapidTexts(items)))
  }

  // ---------------------------------------------------------------------
  // Tesseract
  // ---------------------------------------------------------------------

  /** One row of Tesseract's word table, at twice the screenshot's scale. */
  datatype TessRow = TessRow(text: string, conf: int, left: int, top: int, width: int, height: int)

  /** The table for one page-segmentation mode, or a failed invocation. */
  datatype TessRun = TessRows(rows: seq<TessRow>) | TessFailed

  /** Page-segmentation modes, in the order tried. */
  const PsmOrder: seq<nat> := [6, 11, 3]

  /** The image is upscaled by this factor before recognition. */
  const TessScale: nat := 2

  /** Rows at or below this confidence are dropped. */
  const MinTessConf: int := 30

  predicate TessKeeps(row: TessRow) { row.conf > MinTessConf && |Strip(row.text)| > 0 }

  function TessKept(rows: seq<TessRow>): (r: seq<TessRow>)
    ensures |r| <= |rows|
    ensures forall k :: 0 <= k < |r| ==> TessKeeps(r[k]) && r[k] in rows
    ensures forall k :: 0 <= k < |rows| && TessKeeps(rows[k]) ==> rows[k] in r
  {
    if |rows| == 0 then []
    else
      var rest := TessKept(rows[1..]);
      assert forall k :: 1 <= k < |rows| ==> rows[k] == rows[1..][k - 1];
      (if TessKeeps(rows[0]) then [rows[0]] else []) + rest
  }

  /** The filter works piecewise, so the kept rows appear in table order. */
  lemma {:induction false} TessKeptConcat(a: seq<TessRow>, b: seq<TessRow>)
    ensures TessKept(a + b) == TessKept(a) + TessKept(b)
    decreases |a|
  {
    if |a| == 0 {
      assert a + b == b;
    } else {
      assert (a + b)[1..] == a[1..] + b;
      TessKeptConcat(a[1..], b);
    }
  }

  /** A single row is kept exactly when it is confident enough and not
      blank. */
  lemma TessKeptOne(row: TessRow)
    ensures TessKept([row]) == if TessKeeps(row) then [row] else []
  {
  }

  /** A table whose rows all pass the filter is kept whole, in order. */
  lemma {:induction false} TessKeptAll(rows: seq<TessRow>)
    requires forall k :: 0 <= k < |rows| ==> TessKeeps(rows[k])
    ensures TessKept(rows) == rows
  {
    if |rows| > 0 {
      ConsTail(rows);
      assert forall k :: 0 <= k < |rows| - 1 ==> rows[1..][k] == rows[k + 1];
      TessKeptAll(rows[1..]);
    }
  }

  lemma ConsTail<T>(s: seq<T>)
    requires |s| > 0
    ensures [s[0]] + s[1..] == s
  {
  }

  /** A row's box in screenshot coordinates: each edge divided by the
      upscale factor, rounding down. */
  function TessBox(row: TessRow): (b: Box)
    ensures TessScale * b.x1 <= row.left < TessScale * b.x1 + TessScale
    ensures TessScale * b.x2 <= row.left + row.width < TessScale * b.x2 + TessScale
  {
    Box(row.left / TessScale, row.top / TessScale,
        (row.left + row.width) / TessScale, (row.top + row.height) / TessScale)
  }

  function TessWord(row: TessRow): Word
  {
    var b := TessBox(row);
    Word(Normalise(row.text), Point((b.x1 + b.x2) / 2, (b.y1 + b.y2) / 2))
  }

  function TessWords(rows: seq<TessRow>): (r: seq<Word>)
    ensures |r| == |rows| && forall k :: 0 <= k < |rows| ==> r[k] == TessWord(rows[k])
  {
    seq(|rows|, k requires 0 <= k < |rows| => TessWord(rows[k]))
  }

  function TessTexts(rows: seq<TessRow>): (r: seq<string>)
    ensures |r| == |rows| && forall k :: 0 <= k < |rows| ==> r[k] == rows[k].text
  {
    seq(|rows|, k requires 0 <= k < |rows| => rows[k].text)
  }

  /** The outcome of one page-segmentation mode. */
  datatype PassOutcome = Hit(found: Found) | Miss | Failed

  /** One mode's pass: match the kept rows; the full text is that mode's
      own join of its kept rows. */
  function TessPass(run: TessRun, target: string, offset: Point): (o: PassOutcome)
    ensures run.TessFailed? <==> o.Failed?
    ensures o.Hit? ==> o.found.fullText == FullText(TessTexts(TessKept(run.rows)))
  {
    if run.TessFailed? then Failed
    else
      var kept := TessKept(run.rows);
      match MatchWords(TessWords(kept), target, offset, FullText(TessTexts(kept)))
      case Some(f) => Hit(f)
      case None => Miss
  }

  /** Position j is where a search over the outcomes from position k ends
      with a hit: every mode before it ran and missed. */
  predicate HitAt(outcomes: seq<PassOutcome>, k: nat, j: nat)
  {
    k <= j < |outcomes| && outcomes[j].Hit?
    && forall i :: k <= i < j ==> outcomes[i].Miss?
  }

  /** A miss at position k passes the search on to position next = k + 1. */
  lemma HitAtPastMiss(outcomes: seq<PassOutcome>, k: nat, next: nat)
    requires k < |outcomes| && outcomes[k].Miss? && next == k + 1
    ensures forall j: nat :: HitAt(outcomes, k, j) <==> HitAt(outcomes, next, j)
    ensures (exists j: nat :: HitAt(outcomes, k, j)) <==> (exists j: nat :: HitAt(outcomes, next, j))
  {
    if j: nat :| HitAt(outcomes, k, j) {
      assert HitAt(outcomes, next, j);
    }
    if j: nat :| HitAt(outcomes, next, j) {
      assert HitAt(outcomes, k, j);
    }
  }

  /** The outcomes from position `k` on: the first hit wins, a failure ends
      the search with no result. */
  function FirstHit(outcomes: seq<PassOutcome>, k: nat): (r: Option<Found>)
    requires k <= |outcomes|
    ensures r.Some? <==> exists j: nat :: HitAt(outcomes, k, j)
    ensures forall j: nat :: HitAt(outcomes, k, j) ==> r == Some(outcomes[j].found)
    decreases |outcomes| - k
  {
    if k == |outcomes| then None
    else
      match outcomes[k]
      case Hit(f) => assert HitAt(outcomes, k, k); Some(f)
      case Failed => None
      case Miss => HitAtPastMiss(outcomes, k, k + 1); FirstHit(outcomes, k + 1)
  }

  /** The outcome of each mode, in the order tried. */
  function TessOutcomes(runs: nat -> TessRun, target: string, offset: Point): (os: seq<PassOutcome>)
    ensures |os| == |PsmOrder|
    ensures forall j :: 0 <= j < |PsmOrder| ==> os[j] == TessPass(runs(PsmOrder[j]), target, offset)
  {
    seq(|PsmOrder|, j requires 0 <= j < |PsmOrder| => TessPass(runs(PsmOrder[j]), target, offset))
  }

  /** `_find_text_tesseract`: modes 6, 11 and 3 in turn; the first mode
      that finds the target wins and a failed invocation gives no result. */
  function TessFind(runs: nat -> TessRun, target: string, offset: Point): (r: Option<Found>)
    ensures r.Some? <==> exists j: nat :: HitAt(TessOutcomes(runs, target, offset), 0, j)
    ensures forall j: nat :: HitAt(TessOutcomes(runs, target, offset), 0, j) ==>
      r == Some(TessOutcomes(runs, target, offset)[j].found)
  {
    FirstHit(TessOutcomes(runs, target, offset), 0)
  }

  // ---------------------------------------------------------------------
  // Engine selection
  // ---------------------------------------------------------------------

  /** The engines in the order `auto` mode tries them. */
  const EngineOrder: seq<string> := ["winocr", "rapidocr", "tesseract"]

  const AutoEngine: string := "auto"

  /** LANG_MAP (ocr_engine.py:113-117): the language codes each engine accepts. */
  const LangMap: map<string, map<string, string>> := map[
    "winocr" := map["eng" := "en-US", "chi_sim" := "zh-Hans"],
    "rapidocr" := map["eng" := "en", "chi_sim" := "ch"],
    "tesseract" := map["eng" := "eng", "chi_sim" := "chi_sim"]]

  /** Which recognisers are present: the winocr module imports, a RapidOCR
      instance loaded, a Tesseract executable was found. */
  datatype Availability = Availability(winocr: bool, rapidocr: bool, tesseract: bool)

  /** What each recogniser would report for the screenshot. */
  datatype Readings = Readings(win: WinResponse, rapid: seq<RapidItem>, tess: nat -> TessRun)

  predicate Present(avail: Availability, name: string)
  {
    (name == "winocr" && avail.winocr) || (name == "rapidocr" && avail.rapidocr)
    || (name == "tesseract" && avail.tesseract)
  }

  /** The engine is consulted: present and with a code for the language. */
  predicate Consulted(avail: Availability, name: string, lang: string)
  {
    Present(avail, name) && name in LangMap && lang in LangMap[name]
  }

  /** One engine's attempt; an engine that is not consulted gives nothing. */
  function Attempt(name: string, target: string, lang: string, avail: Availability,
                   readings: Readings, offset: Point): (r: Option<Found>)
    ensures !Consulted(avail, name, lang) ==> r.None?
    ensures name == "winocr" && Consulted(avail, name, lang) ==> r == WinFind(readings.win, target, offset)
    ensures name == "rapidocr" && Consulted(avail, name, lang) ==> r == RapidFind(readings.rapid, target, offset)
    ensures name == "tesseract" && Consulted(avail, name, lang) ==> r == TessFind(readings.tess, target, offset)
  {
    if !Consulted(avail, name, lang) then None
    else if name == "winocr" then WinFind(readings.win, target, offset)
    else if name == "rapidocr" then RapidFind(readings.rapid, target, offset)
    else TessFind(readings.tess, target, offset)
  }

  function AsOutcome(o: Option<Found>): (p: PassOutcome)
    ensures p.Failed? == false && (p.Hit? <==> o.Some?) && (o.Some? ==> p.found == o.value)
  {
    if o.Some? then Hit(o.value) else Miss
  }

  /** The three attempts of `auto` mode, in order. */
  function AutoOutcomes(target: string, lang: string, avail: Availability, readings: Readings, offset: Point)
    : (os: seq<PassOutcome>)
    ensures |os| == |EngineOrder|
    ensures forall j :: 0 <= j < |EngineOrder| ==>
      os[j] == AsOutcome(Attempt(EngineOrder[j], target, lang, avail, readings, offset))
  {
    seq(|EngineOrder|, j requires 0 <= j < |EngineOrder| =>
      AsOutcome(Attempt(EngineOrder[j], target, lang, avail, readings, offset)))
  }

  /** `find_text_location`: the normalised target is looked up with the
      cascade of `auto` mode, or with the one engine named; any other
      engine name, and a target that normalises to nothing, give None. */
  function FindTextLocation(target: Value, lang: string, engine: string, avail: Availability,
                            readings: Readings, offset: Point): (r: Option<Found>)
    ensures NormaliseTarget(target).None? ==> r.None?
    ensures engine != AutoEngine && engine !in EngineOrder ==> r.None?
    ensures NormaliseTarget(target).Some? && engine == AutoEngine ==>
      var os := AutoOutcomes(NormaliseTarget(target).value, lang, avail, readings, offset);
      && (r.Some? <==> exists j: nat :: HitAt(os, 0, j))
      && (forall j: nat :: HitAt(os, 0, j) ==> r == Some(os[j].found))
    ensures NormaliseTarget(target).Some? && engine in EngineOrder ==>
      r == Attempt(engine, NormaliseTarget(target).value, lang, avail, readings, offset)
  {
    match NormaliseTarget(target)
    case None => None
    case Some(t) =>
      if engine == AutoEngine then FirstHit(AutoOutcomes(t, lang, avail, readings, offset), 0)
      else if engine in EngineOrder then Attempt(engine, t, lang, avail, readings, offset)
      else None
  }

  /** An explicitly named engine is the only one consulted: whatever the
      other recognisers would report, and whether they are present, does
      not change the result. */
  lemma ExplicitEngineAlone(target: Value, lang: string, engine: string, offset: Point,
                            avail1: Availability, readings1: Readings,
                            avail2: Availability, readings2: Readings)
    requires engine in EngineOrder
    requires Present(avail1, engine) == Present(avail2, engine)
    requires engine == "winocr" ==> readings1.win == readings2.win
    requires engine == "rapidocr" ==> readings1.rapid == readings2.rapid
    requires engine == "tesseract" ==> readings1.tess == readings2.tess
    ensures FindTextLocation(target, lang, engine, avail1, readings1, offset)
         == FindTextLocation(target, lang, engine, avail2, readings2, offset)
  {
  }

  /** In `auto` mode a recogniser that is absent is skipped: its readings
      do not matter. */
  lemma AutoSkipsAbsent(target: Value, lang: string, offset: Point, avail: Availability,
                        readings1: Readings, readings2: Readings)
    requires avail.winocr ==> readings1.win == readings2.win
    requires avail.rapidocr ==> readings1.rapid == readings2.rapid
    requires avail.tesseract ==> readings1.tess == readings2.tess
    ensures FindTextLocation(target, lang, AutoEngine, avail, readings1, offset)
         == FindTextLocation(target, lang, AutoEngine, avail, readings2, offset)
  {
    if NormaliseTarget(target).Some? {
      var t := NormaliseTarget(target).value;
      assert AutoOutcomes(t, lang, avail, readings1, offset) == AutoOutcomes(t, lang, avail, readings2, offset);
    }
  }

  // ---------------------------------------------------------------------
  // Available engines
  // ---------------------------------------------------------------------

  const NoEngine: string := "none"

  /** An engine's position in the listing order; `none` comes after all. */
  function Rank(name: string): nat
  {
    if name == "winocr" then 0 else if name == "rapidocr" then 1 else if name == "tesseract" then 2 else 3
  }

  function ListingOf(avail: Availability, name: string, caption: string): (r: seq<(string, string)>)
    requires name in LangMap && "eng" in LangMap[name]
    ensures |r| <= 1 && (|r| == 1 <==> Present(avail, name))
    ensures forall k :: 0 <= k < |r| ==> r[k].0 == name
    ensures Lists(r, name) <==> Present(avail, name)
    ensures forall n :: n != name ==> !Lists(r, n)
  {
    if Present(avail, name) && "eng" in LangMap[name] then
      var one := [(name, caption)];
      assert one[0].0 == name;
      one
    else []
  }

  /** Some entry of the listing carries this engine name. */
  predicate Lists(r: seq<(string, string)>, name: string)
  {
    exists k :: 0 <= k < |r| && r[k].0 == name
  }

  lemma ListsConcat(a: seq<(string, string)>, b: seq<(string, string)>, name: string)
    ensures Lists(a + b, name) <==> Lists(a, name) || Lists(b, name)
  {
    if Lists(a + b, name) {
      var k :| 0 <= k < |a + b| && (a + b)[k].0 == name;
      if k >= |a| { assert b[k - |a|].0 == name; }
    }
    if Lists(a, name) {
      var k :| 0 <= k < |a| && a[k].0 == name;
      assert (a + b)[k].0 == name;
    }
    if Lists(b, name) {
      var k :| 0 <= k < |b| && b[k].0 == name;
      assert (a + b)[|a| + k].0 == name;
    }
  }

  /** `get_available_engines`: the present engines with their captions in
      the order winocr, rapidocr, tesseract, or the single entry `none`. */
  function AvailableEngines(avail: Availability): (r: seq<(string, string)>)
    ensures |r| >= 1
    ensures Lists(r, NoEngine) <==> !(avail.winocr || avail.rapidocr || avail.tesseract)
    ensures forall e :: e in EngineOrder ==> (Lists(r, e) <==> Present(avail, e))
    ensures forall i, j :: 0 <= i < j < |r| ==> Rank(r[i].0) < Rank(r[j].0)
  {
    var w := ListingOf(avail, "winocr", "Windows 10/11 OCR");
    var q := ListingOf(avail, "rapidocr", "RapidOCR (\U{63A8}\U{8350})");
    var t := ListingOf(avail, "tesseract", "Tesseract OCR");
    ListsConcat(w, q, NoEngine); ListsConcat(w + q, t, NoEngine);
    ListsConcat(w, q, "winocr"); ListsConcat(w + q, t, "winocr");
    ListsConcat(w, q, "rapidocr"); ListsConcat(w + q, t, "rapidocr");
    ListsConcat(w, q, "tesseract"); ListsConcat(w + q, t, "tesseract");
    var es := w + q + t;
    if |es| == 0 then
      var none := [(NoEngine, "\U{65E0}\U{53EF}\U{7528}OCR\U{5F15}\U{64CE}")];
      assert none[0].0 == NoEngine;
      none
    else es
  }
}
