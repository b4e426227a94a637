/** The string operations of Python's `str` that the modelled program relies
    on, restricted to ASCII: whitespace, case mapping, `strip`, `split`,
    `join`, substring search, `isdigit`, `int()` and `replace`. */
module Text {
  import opened Wrappers

  /** Python's `str.isspace` on the ASCII range, which is also what
      `strip()` removes and what `\s` matches: the six classic whitespace
      characters and the four information separators. */
  predicate IsSpace(c: char) {
    c == ' ' || c == '\t' || c == '\n' || c == '\r' || c == '\U{B}' || c == '\U{C}'
    || IsInfoSeparator(c)
  }

  /** The ASCII information separators 0x1C-0x1F: whitespace to `isspace`,
      but never part of a number that `int()` or `float()` accepts. */
  predicate IsInfoSeparator(c: char) { '\U{1C}' <= c <= '\U{1F}' }

  /** Whether a string holds an information separator anywhere. */
  predicate HasInfoSeparator(s: string) {
    exists i :: 0 <= i < |s| && IsInfoSeparator(s[i])
  }

  predicate IsDigit(c: char) { '0' <= c <= '9' }

  predicate IsLowerLetter(c: char) { 'a' <= c <= 'z' }

  predicate IsUpperLetter(c: char) { 'A' <= c <= 'Z' }

  /** Python's `str.isalnum` on one ASCII character. */
  predicate IsAlnum(c: char) { IsDigit(c) || IsLowerLetter(c) || IsUpperLetter(c) }

  function LowerChar(c: char): (r: char)
    ensures !IsUpperLetter(r)
    ensures IsUpperLetter(c) <==> IsLowerLetter(r) && r != c
  {
    if IsUpperLetter(c) then (c as int + 32) as char else c
  }

  function UpperChar(c: char): (r: char)
    ensures !IsLowerLetter(r)
    ensures LowerChar(r) == LowerChar(c)
  {
    if IsLowerLetter(c) then (c as int - 32) as char else c
  }

  function Lower(s: string): (r: string)
    ensures |r| == |s|
    ensures forall i :: 0 <= i < |s| ==> r[i] == LowerChar(s[i])
  {
    seq(|s|, i requires 0 <= i < |s| => LowerChar(s[i]))
  }

  function Upper(s: string): (r: string)
    ensures |r| == |s|
    ensures forall i :: 0 <= i < |s| ==> r[i] == UpperChar(s[i])
  {
    seq(|s|, i requires 0 <= i < |s| => UpperChar(s[i]))
  }

  /** Python's `str.capitalize`: first character upper case, the rest lower. */
  function Capitalize(s: string): (r: string)
    ensures |r| == |s|
    ensures Lower(r) == Lower(s)
    ensures |r| > 0 ==> !IsLowerLetter(r[0])
    ensures forall i :: 1 <= i < |r| ==> !IsUpperLetter(r[i])
  {
    if |s| == 0 then s else [UpperChar(s[0])] + Lower(s[1..])
  }

  /** Two strings equal up to case, one capitalised and one not, coincide:
      the three properties of `Capitalize` determine its result. */
  lemma {:induction false} CapitalizeUnique(s: string, t: string)
    requires |t| == |s| && Lower(t) == Lower(s)
    requires |t| > 0 ==> !IsLowerLetter(t[0])
    requires forall i :: 1 <= i < |t| ==> !IsUpperLetter(t[i])
    ensures t == Capitalize(s)
  {
    var r := Capitalize(s);
    forall i | 0 <= i < |t| ensures t[i] == r[i] {
      assert LowerChar(t[i]) == LowerChar(r[i]) by {
        assert Lower(t)[i] == Lower(r)[i];
      }
      CaseDetermines(t[i], r[i], i == 0);
    }
  }

  /** Two characters equal up to case and of the same case are equal. */
  lemma CaseDetermines(a: char, b: char, upper: bool)
    requires LowerChar(a) == LowerChar(b)
    requires upper ==> !IsLowerLetter(a) && !IsLowerLetter(b)
    requires !upper ==> !IsUpperLetter(a) && !IsUpperLetter(b)
    ensures a == b
  {
  }

  /** Capitalising twice is capitalising once. */
  lemma CapitalizeIdempotent(s: string)
    ensures Capitalize(Capitalize(s)) == Capitalize(s)
  {
    var r := Capitalize(s);
    LowerIdempotent(s);
    CapitalizeUnique(r, r);
  }

  lemma LowerIdempotent(s: string)
    ensures Lower(Lower(s)) == Lower(s)
  {
  }

  lemma LowerOfUpper(s: string)
    ensures Lower(Upper(s)) == Lower(s)
  {
  }

  lemma LowerConcat(a: string, b: string)
    ensures Lower(a + b) == Lower(a) + Lower(b)
  {
  }

  /** Python's `str.lstrip()`: drops leading whitespace. */
  function StripLeft(s: string): (r: string)
    ensures |r| <= |s| && r == s[|s| - |r|..]
    ensures forall i :: 0 <= i < |s| - |r| ==> IsSpace(s[i])
    ensures |r| > 0 ==> !IsSpace(r[0])
    decreases |s|
  {
    if |s| > 0 && IsSpace(s[0]) then StripLeft(s[1..]) else s
  }

  /** Python's `str.rstrip()`: drops trailing whitespace. */
  function StripRight(s: string): (r: string)
    ensures |r| <= |s| && r == s[..|r|]
    ensures forall i :: |r| <= i < |s| ==> IsSpace(s[i])
    ensures |r| > 0 ==> !IsSpace(r[|r| - 1])
    decreases |s|
  {
    if |s| > 0 && IsSpace(s[|s| - 1]) then StripRight(s[..|s| - 1]) else s
  }

  /** Python's `str.strip()`. */
  function Strip(s: string): (r: string)
    ensures |r| <= |s|
    ensures |r| > 0 ==> !IsSpace(r[0]) && !IsSpace(r[|r| - 1])
  {
    StripRight(StripLeft(s))
  }

  /** The stripped string is the slice of `s` between a run of leading
      and a run of trailing whitespace. */
  lemma StripSlice(s: string) returns (k: nat)
    ensures k + |Strip(s)| <= |s| && Strip(s) == s[k..k + |Strip(s)|]
    ensures forall i :: 0 <= i < k ==> IsSpace(s[i])
    ensures forall i :: k + |Strip(s)| <= i < |s| ==> IsSpace(s[i])
  {
    var left := StripLeft(s);
    var r := StripRight(left);
    assert Strip(s) == r;
    k := |s| - |left|;
    assert left == s[k..];
    assert r == left[..|r|];
    assert r == s[k..k + |r|];
    forall i | k + |r| <= i < |s| ensures IsSpace(s[i]) {
      assert |r| <= i - k < |left|;
      assert s[i] == left[i - k];
    }
  }

  lemma {:induction false} StripLeftAppendSpace(s: string, c: char)
    requires IsSpace(c)
    ensures StripLeft(s + [c]) == if |StripLeft(s)| == 0 then "" else StripLeft(s) + [c]
    decreases |s|
  {
    if |s| == 0 {
      assert (s + [c])[1..] == [];
    } else if IsSpace(s[0]) {
      assert (s + [c])[1..] == s[1..] + [c];
      StripLeftAppendSpace(s[1..], c);
    }
  }

  /** Trailing whitespace goes with `strip()`: one more whitespace
      character at the end changes nothing. */
  lemma StripAppendSpace(s: string, c: char)
    requires IsSpace(c)
    ensures Strip(s + [c]) == Strip(s)
  {
    StripLeftAppendSpace(s, c);
    var left := StripLeft(s);
    if |left| > 0 {
      assert (left + [c])[..|left|] == left;
    }
  }

  /** `re.sub(r'\s+', '', s)`: every whitespace character removed. */
  function RemoveSpaces(s: string): (r: string)
    ensures |r| <= |s|
    ensures forall i :: 0 <= i < |r| ==> !IsSpace(r[i])
    ensures (forall i :: 0 <= i < |s| ==> !IsSpace(s[i])) ==> r == s
    ensures |r| == 0 <==> forall i :: 0 <= i < |s| ==> IsSpace(s[i])
  {
    if |s| == 0 then ""
    else (if IsSpace(s[0]) then "" else [s[0]]) + RemoveSpaces(s[1..])
  }

  /** Removing whitespace works piecewise, so the result is the
      non-whitespace characters in their original order. */
  lemma {:induction false} RemoveSpacesConcat(a: string, b: string)
    ensures RemoveSpaces(a + b) == RemoveSpaces(a) + RemoveSpaces(b)
    decreases |a|
  {
    if |a| == 0 {
      assert a + b == b;
    } else {
      assert (a + b)[1..] == a[1..] + b;
      RemoveSpacesConcat(a[1..], b);
    }
  }

  /** One character is kept exactly when it is not whitespace. */
  lemma RemoveSpacesOne(c: char)
    ensures RemoveSpaces([c]) == if IsSpace(c) then "" else [c]
  {
  }

  /** `needle in hay` for strings. */
  predicate Contains(hay: string, needle: string)
    decreases |hay|
  {
    needle <= hay || (|hay| > 0 && Contains(hay[1..], needle))
  }

  lemma ContainsSuffix(hay: string, k: nat, needle: string)
    requires k <= |hay| && Contains(hay[k..], needle)
    ensures Contains(hay, needle)
    decreases k
  {
    if k > 0 {
      assert hay[1..][k - 1..] == hay[k..];
      ContainsSuffix(hay[1..], k - 1, needle);
    }
  }

  /** A haystack that lacks the needle's first character does not contain
      the needle. */
  lemma {:induction false} NotContainsForeign(hay: string, needle: string)
    requires |needle| > 0 && needle[0] !in hay
    ensures !Contains(hay, needle)
    decreases |hay|
  {
    if |hay| > 0 {
      NotContainsForeign(hay[1..], needle);
    }
  }

  /** The index of the first occurrence of `c` in `s`. */
  function FirstIndex(s: string, c: char): (k: nat)
    requires c in s
    ensures k < |s| && s[k] == c && c !in s[..k]
  {
    if s[0] == c then 0
    else
      assert c in s[1..];
      var k := FirstIndex(s[1..], c);
      assert s[..k + 1] == [s[0]] + s[1..][..k];
      k + 1
  }

  /** `sep.join(parts)`. */
  function Join(parts: seq<string>, sep: string): string
  {
    if |parts| == 0 then ""
    else if |parts| == 1 then parts[0]
    else parts[0] + sep + Join(parts[1..], sep)
  }

  /** A character in none of the parts and not in the separator is not in
      their join. */
  lemma {:induction false} JoinAvoids(parts: seq<string>, sep: string, c: char)
    requires c !in sep
    requires forall i :: 0 <= i < |parts| ==> c !in parts[i]
    ensures c !in Join(parts, sep)
    decreases |parts|
  {
    if |parts| > 1 {
      JoinAvoids(parts[1..], sep, c);
    }
  }

  /** `s.split(sep)` for a one-character separator: never empty, no part holds
      the separator, and joining the parts back gives `s`. */
  function Split(s: string, sep: char): (parts: seq<string>)
    ensures |parts| >= 1
    ensures forall i :: 0 <= i < |parts| ==> sep !in parts[i]
    ensures Join(parts, [sep]) == s
    decreases |s|
  {
    if sep !in s then [s]
    else
      var k := FirstIndex(s, sep);
      var rest := Split(s[k + 1..], sep);
      assert s == s[..k] + [sep] + s[k + 1..];
      [s[..k]] + rest
  }

  /** Without the separator there is one part, the whole string; with it
      there are at least two. */
  lemma SplitCount(s: string, sep: char)
    ensures sep !in s ==> Split(s, sep) == [s]
    ensures sep in s ==> |Split(s, sep)| >= 2
  {
  }

  /** The first occurrence is the only position holding `c` with no `c`
      before it. */
  lemma FirstIndexUnique(s: string, c: char, j: nat)
    requires j < |s| && s[j] == c && c !in s[..j]
    ensures FirstIndex(s, c) == j
  {
  }

  /** `split` cuts at the first separator and splits the rest. */
  lemma SplitAt(s: string, sep: char)
    requires sep in s
    ensures Split(s, sep) == [s[..FirstIndex(s, sep)]] + Split(s[FirstIndex(s, sep) + 1..], sep)
  {
  }

  /** Extending the last of a non-empty list of parts commutes with putting
      one more part in front. */
  lemma ExtendLastCons(x: string, q: seq<string>, c: char)
    requires |q| >= 1
    ensures var p := [x] + q; p[..|p| - 1] + [p[|p| - 1] + [c]] == [x] + (q[..|q| - 1] + [q[|q| - 1] + [c]])
  {
  }

  /** A character other than the separator, appended to the text, is
      appended to the last part. */
  lemma {:induction false} SplitAppend(s: string, sep: char, c: char)
    requires c != sep
    ensures var p := Split(s, sep); Split(s + [c], sep) == p[..|p| - 1] + [p[|p| - 1] + [c]]
    decreases |s|
  {
    var t := s + [c];
    if sep in s {
      var k := FirstIndex(s, sep);
      assert t[..k] == s[..k];
      FirstIndexUnique(t, sep, k);
      var tail := s[k + 1..];
      assert t[k + 1..] == tail + [c];
      SplitAt(s, sep);
      SplitAt(t, sep);
      SplitAppend(tail, sep, c);
      ExtendLastCons(s[..k], Split(tail, sep), c);
    } else {
      assert sep !in t;
    }
  }

  /** `split` undoes `join`: splitting the join of separator-free parts gives
      the parts back. */
  lemma {:induction false} SplitJoin(parts: seq<string>, sep: char)
    requires |parts| >= 1
    requires forall i :: 0 <= i < |parts| ==> sep !in parts[i]
    ensures Split(Join(parts, [sep]), sep) == parts
    decreases |parts|
  {
    if |parts| == 1 {
    } else {
      var s := Join(parts, [sep]);
      var tail := Join(parts[1..], [sep]);
      assert s == parts[0] + [sep] + tail;
      assert sep in s by { assert s[|parts[0]|] == sep; }
      var k := FirstIndex(s, sep);
      assert s[..k] == parts[0];
      assert s[k + 1..] == tail;
      SplitJoin(parts[1..], sep);
      assert Split(s, sep) == [parts[0]] + Split(tail, sep);
    }
  }

  predicate IsDigits(s: string) {
    |s| > 0 && forall i :: 0 <= i < |s| ==> IsDigit(s[i])
  }

  function DigitValue(c: char): nat
    requires IsDigit(c)
  {
    c as int - '0' as int
  }

  /** The decimal value of a run of digits. */
  function DigitsValue(s: string): nat
    requires forall i :: 0 <= i < |s| ==> IsDigit(s[i])
    decreases |s|
  {
    if |s| == 0 then 0 else 10 * DigitsValue(s[..|s| - 1]) + DigitValue(s[|s| - 1])
  }

  function DigitChar(d: nat): (c: char)
    requires d < 10
    ensures IsDigit(c) && DigitValue(c) == d
  {
    ('0' as int + d) as char
  }

  /** `str(n)` for a natural number; `DigitsValue` reads it back. */
  function NatToString(n: nat): (s: string)
    ensures IsDigits(s)
    ensures DigitsValue(s) == n
  {
    if n < 10 then [DigitChar(n)]
    else
      var s := NatToString(n / 10) + [DigitChar(n % 10)];
      assert s[..|s| - 1] == NatToString(n / 10);
      s
  }

  lemma NatToStringInjective(a: nat, b: nat)
    requires NatToString(a) == NatToString(b)
    ensures a == b
  {
  }

  /** `str(i)` for an integer. */
  function IntToString(i: int): string
  {
    if i < 0 then "-" + NatToString(-i) else NatToString(i)
  }

  /** Python's `int(s)` on a string: surrounding whitespace, an optional sign,
      then one or more decimal digits; anything else raises `ValueError`,
      which is `None` here. `int()` strips only the six classic whitespace
      characters, so an information separator anywhere makes it raise. */
  function ParseInt(s: string): (r: Option<int>)
    ensures r.Some? ==> |Strip(s)| > 0
    ensures HasInfoSeparator(s) ==> r.None?
  {
    var t := Strip(s);
    if HasInfoSeparator(s) then None
    else if |t| > 0 && (t[0] == '-' || t[0] == '+') then
      if IsDigits(t[1..]) then
        Some(if t[0] == '-' then -(DigitsValue(t[1..]) as int) else DigitsValue(t[1..]))
      else None
    else if IsDigits(t) then Some(DigitsValue(t))
    else None
  }

  lemma NoSpaceStripsToItself(s: string)
    requires forall i :: 0 <= i < |s| ==> !IsSpace(s[i])
    ensures Strip(s) == s
  {
    assert StripLeft(s) == s;
    assert StripRight(s) == s;
  }

  /** `int(str(i)) == i`. */
  lemma {:induction false} ParseIntOfIntToString(i: int)
    ensures ParseInt(IntToString(i)) == Some(i)
  {
    var s := IntToString(i);
    var digits := NatToString(if i < 0 then -i else i);
    assert IsDigits(digits) && DigitsValue(digits) == (if i < 0 then -i else i);
    if i < 0 {
      assert s == "-" + digits;
      assert s[1..] == digits;
      forall k | 0 <= k < |s| ensures !IsSpace(s[k]) {
        if k > 0 { assert s[k] == digits[k - 1]; }
      }
      NoSpaceStripsToItself(s);
      assert Strip(s)[0] == '-';
    } else {
      assert s == digits;
      assert !IsSpace(s[0]);
      forall k | 0 <= k < |s| ensures !IsSpace(s[k]) {
        assert IsDigit(digits[k]);
      }
      NoSpaceStripsToItself(s);
      assert Strip(s)[0] != '-' && Strip(s)[0] != '+';
    }
  }

  /** `s.replace(pat, rep)`: every non-overlapping occurrence, left to right. */
  function ReplaceAll(s: string, pat: string, rep: string): (r: string)
    requires |pat| > 0
    ensures !Contains(s, pat) ==> r == s
    ensures forall c :: c in r ==> c in s || c in rep
    decreases |s|
  {
    if |s| < |pat| then s
    else if pat <= s then rep + ReplaceAll(s[|pat|..], pat, rep)
    else [s[0]] + ReplaceAll(s[1..], pat, rep)
  }

  /** `s.rstrip(c)` for one character. */
  function RStripChar(s: string, c: char): (r: string)
    ensures r <= s
    ensures |r| > 0 ==> r[|r| - 1] != c
    ensures forall i :: |r| <= i < |s| ==> s[i] == c
    decreases |s|
  {
    if |s| > 0 && s[|s| - 1] == c then RStripChar(s[..|s| - 1], c) else s
  }

  /** Replacing a pattern by itself changes nothing. */
  lemma {:induction false} ReplaceAllIdentity(s: string, pat: string)
    requires |pat| > 0
    ensures ReplaceAll(s, pat, pat) == s
    decreases |s|
  {
    if |s| >= |pat| {
      if pat <= s {
        ReplaceAllIdentity(s[|pat|..], pat);
        assert s == pat + s[|pat|..];
      } else {
        ReplaceAllIdentity(s[1..], pat);
        assert s == [s[0]] + s[1..];
      }
    }
  }

  /** A first character that cannot start the pattern is copied as is. */
  lemma ReplaceAllCopiesHead(s: string, pat: string, rep: string)
    requires |s| > 0 && |pat| > 0 && s[0] != pat[0]
    ensures ReplaceAll(s, pat, rep) == [s[0]] + ReplaceAll(s[1..], pat, rep)
  {
    if |s| < |pat| {
      assert s == [s[0]] + s[1..];
    }
  }

  /** An occurrence at the front becomes `rep`. */
  lemma ReplaceAllAtFront(pat: string, rep: string, b: string)
    requires |pat| > 0
    ensures ReplaceAll(pat + b, pat, rep) == rep + ReplaceAll(b, pat, rep)
  {
    var s := pat + b;
    assert pat <= s && s[|pat|..] == b;
  }

  lemma ConsAssoc(a: string, x: string, y: string)
    requires |a| > 0
    ensures [a[0]] + (a[1..] + x + y) == a + x + y
  {
    assert a == [a[0]] + a[1..];
  }

  /** A literal prefix lacking the pattern's first character is copied,
      then the occurrence right after it becomes `rep`. */
  lemma {:induction false} ReplaceAllAfterLiteral(a: string, pat: string, rep: string, b: string)
    requires |pat| > 0 && pat[0] !in a
    ensures ReplaceAll(a + pat + b, pat, rep) == a + rep + ReplaceAll(b, pat, rep)
    decreases |a|
  {
    if |a| == 0 {
      assert a + pat + b == pat + b;
      ReplaceAllAtFront(pat, rep, b);
    } else {
      var s := a + pat + b;
      var tail := a[1..];
      assert s[0] == a[0];
      assert s[1..] == tail + pat + b;
      assert pat[0] !in tail;
      ReplaceAllCopiesHead(s, pat, rep);
      ReplaceAllAfterLiteral(tail, pat, rep, b);
      ConsAssoc(a, rep, ReplaceAll(b, pat, rep));
    }
  }

  /** Every occurrence becomes `rep`: pieces free of the pattern's first
      character, joined by the pattern, come out joined by `rep`. */
  lemma {:induction false} ReplaceAllJoin(pieces: seq<string>, pat: string, rep: string)
    requires |pat| > 0 && forall i :: 0 <= i < |pieces| ==> pat[0] !in pieces[i]
    ensures ReplaceAll(Join(pieces, pat), pat, rep) == Join(pieces, rep)
    decreases |pieces|
  {
    if |pieces| == 1 {
      NotContainsForeign(pieces[0], pat);
    } else if |pieces| > 1 {
      ReplaceAllJoin(pieces[1..], pat, rep);
      ReplaceAllAfterLiteral(pieces[0], pat, rep, Join(pieces[1..], pat));
    }
  }

  /** Every character of every part survives into the join. */
  lemma {:induction false} JoinIncludes(parts: seq<string>, sep: string, i: nat, c: char)
    requires i < |parts| && c in parts[i]
    ensures c in Join(parts, sep)
    decreases |parts|
  {
    if |parts| > 1 && i > 0 {
      JoinIncludes(parts[1..], sep, i - 1, c);
    }
  }

  /** Replacing a one-character pattern by nothing removes that character. */
  lemma {:induction false} ReplaceCharRemoves(s: string, c: char)
    ensures c !in ReplaceAll(s, [c], "")
    decreases |s|
  {
    if |s| >= 1 {
      ReplaceCharRemoves(s[1..], c);
    }
  }
}
