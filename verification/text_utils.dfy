/** The display-width oracle: the editor's own code-point width table and the
    conversions between character indices and display columns over one line.

    A line is a sequence of code points. The source iterates code points but
    measures with UTF-16 lengths, which agree only on Basic Multilingual Plane
    text; the model assumes such text throughout. */
module TextUtils {

  /** Code-point ranges (inclusive) that the table makes two cells wide: CJK
      unified ideographs, hiragana/katakana and fullwidth forms first, then
      the other CJK symbol, radical, stroke, enclosed, compatibility and
      vertical-form blocks. */
  const WideRanges: seq<(int, int)> := [
    (0x4E00, 0x9FFF), (0x3040, 0x30FF), (0xFF01, 0xFF5E),
    (0x3000, 0x303F), (0x2E80, 0x2EFF), (0x2F00, 0x2FDF), (0x31C0, 0x31EF),
    (0x3200, 0x32FF), (0x3300, 0x33FF), (0xF900, 0xFAFF), (0xFE30, 0xFE4F)
  ]

  /** True iff `code` lies in one of the wide ranges of the table. */
  predicate InWideTable(code: int) {
    exists i :: 0 <= i < |WideRanges| && WideRanges[i].0 <= code <= WideRanges[i].1
  }

  /** Width of one code point: 0 for control characters (tab included), 1 for
      printable ASCII, 2 for the wide ranges, 1 for everything else. */
  function CharWidth(c: char): (w: nat)
    ensures w <= 2
    ensures w == 0 <==> (c as int) < 0x20
    ensures w == 2 <==> InWideTable(c as int)
    ensures w == 1 <==> (c as int) >= 0x20 && !InWideTable(c as int)
  {
    var code := c as int;
    if code < 0x20 then 0
    else if code < 0x7F then 1
    else if (0x4E00 <= code <= 0x9FFF) || (0x3040 <= code <= 0x30FF) || (0xFF01 <= code <= 0xFF5E) then
      assert WideRanges[0] == (0x4E00, 0x9FFF) && WideRanges[1] == (0x3040, 0x30FF) && WideRanges[2] == (0xFF01, 0xFF5E);
      2
    else if (0x3000 <= code <= 0x303F) || (0x2E80 <= code <= 0x2EFF) || (0x2F00 <= code <= 0x2FDF)
         || (0x31C0 <= code <= 0x31EF) || (0x3200 <= code <= 0x32FF) || (0x3300 <= code <= 0x33FF)
         || (0xF900 <= code <= 0xFAFF) || (0xFE30 <= code <= 0xFE4F) then
      assert WideRanges[3] == (0x3000, 0x303F) && WideRanges[4] == (0x2E80, 0x2EFF);
      assert WideRanges[5] == (0x2F00, 0x2FDF) && WideRanges[6] == (0x31C0, 0x31EF);
      assert WideRanges[7] == (0x3200, 0x32FF) && WideRanges[8] == (0x3300, 0x33FF);
      assert WideRanges[9] == (0xF900, 0xFAFF) && WideRanges[10] == (0xFE30, 0xFE4F);
      2
    else
      1
  }

  /** `getCharWidth` applied to a string: the width of its first code point,
      0 for the empty string. */
  function GetCharWidth(s: string): (w: nat)
    ensures w <= 2
    ensures w == 0 <==> |s| == 0 || (s[0] as int) < 0x20
    ensures |s| > 0 ==> (w == 2 <==> InWideTable(s[0] as int))
  {
    if |s| == 0 then 0 else CharWidth(s[0])
  }

  /** Number of terminal cells `s` occupies: the sum of its code points' widths. */
  function StringWidth(s: string): nat {
    if |s| == 0 then 0 else CharWidth(s[0]) + StringWidth(s[1..])
  }

  /** `getStringWidth`: the running sum over the code points, left to right,
      as the source's loop computes it. */
  method GetStringWidth(text: string) returns (width: nat)
    ensures width == StringWidth(text)
    ensures width <= 2 * |text|
  {
    width := 0;
    var i := 0;
    while i < |text|
      invariant 0 <= i <= |text|
      invariant width == StringWidth(text[..i])
      invariant width <= 2 * i
    {
      PrefixWidthStep(text, i);
      width := width + CharWidth(text[i]);
      i := i + 1;
    }
    assert text[..|text|] == text;
  }

  /** No code point of `s` has width 0 (no control characters). */
  predicate NoZeroWidth(s: string) {
    forall i :: 0 <= i < |s| ==> CharWidth(s[i]) > 0
  }

  /** Width is additive over concatenation. */
  lemma {:induction false} StringWidthAppend(a: string, b: string)
    ensures StringWidth(a + b) == StringWidth(a) + StringWidth(b)
    decreases |a|
  {
    if |a| == 0 {
      assert a + b == b;
    } else {
      assert (a + b)[1..] == a[1..] + b;
      StringWidthAppend(a[1..], b);
    }
  }

  /** Every code point takes at most two cells, and at least one when none is a control character. */
  lemma {:induction false} StringWidthBounds(s: string)
    ensures StringWidth(s) <= 2 * |s|
    ensures NoZeroWidth(s) ==> StringWidth(s) >= |s|
    decreases |s|
  {
    if |s| > 0 {
      StringWidthBounds(s[1..]);
      assert NoZeroWidth(s) ==> NoZeroWidth(s[1..]) by {
        if NoZeroWidth(s) {
          forall i | 0 <= i < |s[1..]| ensures CharWidth(s[1..][i]) > 0 {
            assert s[1..][i] == s[i + 1];
          }
        }
      }
    }
  }

  /** A prefix's width is a shorter prefix's width plus that of the gap. */
  lemma PrefixWidthSplit(t: string, j: nat, k: nat)
    requires j <= k <= |t|
    ensures StringWidth(t[..k]) == StringWidth(t[..j]) + StringWidth(t[j..k])
  {
    assert t[..k] == t[..j] + t[j..k];
    StringWidthAppend(t[..j], t[j..k]);
  }

  /** Widths of prefixes grow with the prefix, strictly when the extra code
      points all have positive width. */
  lemma PrefixWidthMonotone(t: string, j: nat, k: nat)
    requires j <= k <= |t|
    ensures StringWidth(t[..j]) <= StringWidth(t[..k])
    ensures NoZeroWidth(t) && j < k ==> StringWidth(t[..j]) < StringWidth(t[..k])
  {
    assert t[..k] == t[..j] + t[j..k];
    StringWidthAppend(t[..j], t[j..k]);
    if NoZeroWidth(t) && j < k {
      assert t[j..k] == [t[j]] + t[j + 1..k];
      StringWidthAppend([t[j]], t[j + 1..k]);
      assert StringWidth([t[j]]) == CharWidth(t[j]) by {
        assert [t[j]][1..] == [];
      }
    }
  }

  /** Adding one code point to a prefix adds exactly its width. */
  lemma PrefixWidthStep(t: string, k: nat)
    requires k < |t|
    ensures StringWidth(t[..k + 1]) == StringWidth(t[..k]) + CharWidth(t[k])
  {
    assert t[..k + 1] == t[..k] + [t[k]];
    StringWidthAppend(t[..k], [t[k]]);
    assert [t[k]][1..] == [];
  }

  /** The greedy scan of `getCharIndexFromDisplayWidth` after its guard: count
      code points while the running width stays within `budget`. */
  function FitPrefix(t: string, budget: int): (r: nat)
    ensures r <= |t|
    ensures budget >= 0 ==> StringWidth(t[..r]) <= budget
    ensures r < |t| ==> StringWidth(t[..r + 1]) > budget
    decreases |t|
  {
    if |t| == 0 then 0
    else if CharWidth(t[0]) > budget then
      assert t[..1] == [t[0]] && [t[0]][1..] == [];
      0
    else
      var r' := FitPrefix(t[1..], budget - CharWidth(t[0]));
      assert t[..r' + 1] == [t[0]] + t[1..][..r'];
      assert r' < |t[1..]| ==> t[..r' + 2] == [t[0]] + t[1..][..r' + 1];
      1 + r'
  }

  /** `getCharIndexFromDisplayWidth`: the index of the code point at display
      column `targetWidth`. It truncates: a target inside a wide character
      yields the index before that character. */
  function CharIndexFromDisplayWidth(t: string, targetWidth: int): (r: nat)
    ensures r <= |t|
    ensures |t| == 0 || targetWidth <= 0 ==> r == 0
    ensures targetWidth > 0 ==> StringWidth(t[..r]) <= targetWidth
    ensures targetWidth > 0 && r < |t| ==> StringWidth(t[..r + 1]) > targetWidth
  {
    if |t| == 0 || targetWidth <= 0 then 0 else FitPrefix(t, targetWidth)
  }

  /** For a positive target the index is the longest prefix whose width fits. */
  lemma CharIndexIsLongestFit(t: string, targetWidth: int, k: nat)
    requires targetWidth > 0 && k <= |t|
    requires StringWidth(t[..k]) <= targetWidth
    ensures k <= CharIndexFromDisplayWidth(t, targetWidth)
  {
    var r := CharIndexFromDisplayWidth(t, targetWidth);
    if k > r {
      PrefixWidthMonotone(t, r + 1, k);
    }
  }

  /** Moving the target right never moves the index left. */
  lemma CharIndexMonotone(t: string, a: int, b: int)
    requires a <= b
    ensures CharIndexFromDisplayWidth(t, a) <= CharIndexFromDisplayWidth(t, b)
  {
    var ra := CharIndexFromDisplayWidth(t, a);
    if a > 0 {
      CharIndexIsLongestFit(t, b, ra);
    }
  }

  /** `getDisplayWidthFromCharIndex`: the display column at which the code point
      with index `charIndex` starts; indices are clamped to `[0, |t|]`. */
  function DisplayWidthFromCharIndex(t: string, charIndex: int): (r: nat)
    ensures r == StringWidth(t[..if charIndex <= 0 then 0 else if charIndex <= |t| then charIndex else |t|])
    ensures r <= StringWidth(t)
    decreases |t|
  {
    if |t| == 0 || charIndex <= 0 then 0
    else
      var k := if charIndex <= |t| then charIndex else |t|;
      assert t[..k] == [t[0]] + t[1..][..k - 1];
      assert [t[0]][1..] == [];
      StringWidthAppend([t[0]], t[1..][..k - 1]);
      assert t[..|t|] == t;
      PrefixWidthMonotone(t, k, |t|);
      CharWidth(t[0]) + DisplayWidthFromCharIndex(t[1..], charIndex - 1)
  }

  /** The display column grows with the index. */
  lemma DisplayWidthMonotone(t: string, i: int, j: int)
    requires i <= j
    ensures DisplayWidthFromCharIndex(t, i) <= DisplayWidthFromCharIndex(t, j)
  {
    var ci := if i <= 0 then 0 else if i <= |t| then i else |t|;
    var cj := if j <= 0 then 0 else if j <= |t| then j else |t|;
    PrefixWidthMonotone(t, ci, cj);
  }

  /** Index -> column -> index is the identity on text without zero-width code points. */
  lemma IndexWidthRoundTrip(t: string, i: nat)
    requires NoZeroWidth(t) && i <= |t|
    ensures CharIndexFromDisplayWidth(t, DisplayWidthFromCharIndex(t, i)) == i
  {
    var w := DisplayWidthFromCharIndex(t, i);
    var r := CharIndexFromDisplayWidth(t, w);
    if i > 0 {
      PrefixWidthMonotone(t, 0, i);
      assert t[..0] == [];
      if r < i {
        PrefixWidthMonotone(t, r + 1, i);
      } else if r > i {
        PrefixWidthMonotone(t, i, r);
      }
    }
  }

  /** Without the zero-width restriction the round trip fails: a trailing tab
      is swallowed by the scan, so index 1 of "a\t" comes back as 2. */
  lemma RoundTripNeedsVisibleText()
    ensures CharIndexFromDisplayWidth("a\t", DisplayWidthFromCharIndex("a\t", 1)) == 2
  {
    assert DisplayWidthFromCharIndex("a\t", 1) == 1;
    assert FitPrefix("\t", 0) == 1;
    assert FitPrefix("a\t", 1) == 2;
  }

  /** "a漢b": target 2 lands inside the wide character and gives the index
      before it; target 3 gives the index after it. */
  lemma WideCharacterTruncates()
    ensures CharIndexFromDisplayWidth("a漢b", 2) == 1
    ensures CharIndexFromDisplayWidth("a漢b", 3) == 2
  {
    assert CharWidth('漢') == 2 by {
      assert WideRanges[0] == (0x4E00, 0x9FFF);
    }
    assert FitPrefix("b", 0) == 0;
    assert FitPrefix("漢b", 1) == 0;
    assert FitPrefix("漢b", 2) == 1;
  }

  /** The accumulating loop of `truncateByDisplayWidth` after its guard. */
  function TakeFitting(t: string, budget: int): (r: string)
    ensures r == t[..FitPrefix(t, budget)]
    decreases |t|
  {
    if |t| == 0 || CharWidth(t[0]) > budget then ""
    else [t[0]] + TakeFitting(t[1..], budget - CharWidth(t[0]))
  }

  /** `truncateByDisplayWidth`: the longest prefix of `t` that fits in `maxWidth` cells. */
  function TruncateByDisplayWidth(t: string, maxWidth: int): (r: string)
    ensures r == t[..CharIndexFromDisplayWidth(t, maxWidth)]
    ensures StringWidth(r) <= if maxWidth > 0 then maxWidth else 0
  {
    if |t| == 0 || maxWidth <= 0 then "" else TakeFitting(t, maxWidth)
  }

  /** `s` repeated `n` times (JavaScript's `String.prototype.repeat`). */
  function Repeat(s: string, n: nat): (r: string)
    ensures |r| == n * |s|
    ensures StringWidth(r) == n * StringWidth(s)
  {
    if n == 0 then ""
    else
      var rest := Repeat(s, n - 1);
      StringWidthAppend(s, rest);
      SubMul(n, 1, |s|);
      SubMul(n, 1, StringWidth(s));
      s + rest
  }

  /** The copies line up: position `k` of `n` copies of `s` holds the
      character of `s` at `k` modulo the length of `s`. */
  lemma {:induction false} RepeatCycles(s: string, n: nat)
    requires |s| > 0
    ensures forall k :: 0 <= k < |Repeat(s, n)| ==> Repeat(s, n)[k] == s[k % |s|]
  {
    if n > 0 {
      var rest := Repeat(s, n - 1);
      RepeatCycles(s, n - 1);
      DivUnique(|rest|, |s|, n - 1, 0);
      RepeatContentStep(s, rest);
    }
  }

  /** Prepending one more copy keeps every code point at its place in the
      cycle through `s`. */
  lemma RepeatContentStep(s: string, rest: string)
    requires |s| > 0 && |rest| % |s| == 0
    requires forall k :: 0 <= k < |rest| ==> rest[k] == s[k % |s|]
    ensures forall k :: 0 <= k < |s + rest| ==> (s + rest)[k] == s[k % |s|]
  {
    forall k | 0 <= k < |s + rest|
      ensures (s + rest)[k] == s[k % |s|]
    {
      if k < |s| {
        DivUnique(k, |s|, 0, k);
      } else {
        ModShiftAt(k, |s|);
        assert (s + rest)[k] == rest[k - |s|];
      }
    }
  }

  /** Stepping back by the modulus keeps the remainder. */
  lemma ModShiftAt(k: int, m: int)
    requires m > 0 && k >= m
    ensures (k - m) % m == k % m
  {
    var q, t := k / m, k % m;
    assert k == q * m + t && 0 <= t < m;
    SubMul(q, 1, m);
    DivUnique(k - m, m, q - 1, t);
  }

  /** The remainder is the unique `t` with `a == q * m + t` and `0 <= t < m`. */
  lemma DivUnique(a: int, m: int, q: int, t: int)
    requires m > 0 && a == q * m + t && 0 <= t < m
    ensures a % m == t
  {
    var q0, t0 := a / m, a % m;
    assert a == q0 * m + t0 && 0 <= t0 < m;
    SubMul(q, q0, m);
    if q > q0 {
      MulAtLeast(q - q0, m);
    } else if q < q0 {
      MulAtLeast(q0 - q, m);
    }
  }

  /** Multiplication distributes over subtraction. */
  lemma SubMul(a: int, b: int, m: int)
    ensures (a - b) * m == a * m - b * m
  {
  }

  /** A positive multiple of `m` is at least `m`. */
  lemma MulAtLeast(a: int, m: int)
    requires a >= 1 && m > 0
    ensures a * m >= m
  {
  }

  /** Every code point of `n` copies of a one-character string is that
      character. */
  lemma RepeatChar(pad: string, n: nat)
    requires |pad| == 1
    ensures forall k :: 0 <= k < |Repeat(pad, n)| ==> Repeat(pad, n)[k] == pad[0]
  {
    var r := Repeat(pad, n);
    RepeatCycles(pad, n);
    forall k | 0 <= k < |r|
      ensures r[k] == pad[0]
    {
      assert r[k] == pad[k % 1];
    }
  }

  /** `padRight`: the text followed by enough copies of `padChar` to make up
      the missing width; text already wide enough comes back unchanged. */
  function PadRight(text: string, totalWidth: int, padChar: string): (r: string)
    ensures StringWidth(text) >= totalWidth ==> r == text
    ensures StringWidth(text) < totalWidth ==>
      var n := totalWidth - StringWidth(text);
      && r == text + Repeat(padChar, n)
      && |r| == |text| + n * |padChar|
      && r[..|text|] == text
      && StringWidth(r) == StringWidth(text) + n * StringWidth(padChar)
  {
    var currentWidth := StringWidth(text);
    if currentWidth >= totalWidth then text
    else
      var n := totalWidth - currentWidth;
      var pad := Repeat(padChar, n);
      PaddedAfter(text, pad, n, |padChar|, StringWidth(padChar));
      text + pad
  }

  /** `padLeft`: the padding comes before the text. */
  function PadLeft(text: string, totalWidth: int, padChar: string): (r: string)
    ensures StringWidth(text) >= totalWidth ==> r == text
    ensures StringWidth(text) < totalWidth ==>
      var n := totalWidth - StringWidth(text);
      && r == Repeat(padChar, n) + text
      && |r| == |text| + n * |padChar|
      && r[|r| - |text|..] == text
      && StringWidth(r) == StringWidth(text) + n * StringWidth(padChar)
  {
    var currentWidth := StringWidth(text);
    if currentWidth >= totalWidth then text
    else
      var n := totalWidth - currentWidth;
      var pad := Repeat(padChar, n);
      PaddedBefore(pad, text, n, |padChar|, StringWidth(padChar));
      pad + text
  }

  /** `padCenter`: the missing width split into floor(n/2) copies before the
      text and the rest after it. */
  function PadCenter(text: string, totalWidth: int, padChar: string): (r: string)
    ensures StringWidth(text) >= totalWidth ==> r == text
    ensures StringWidth(text) < totalWidth ==>
      r == Centered(padChar, text, totalWidth - StringWidth(text))
    ensures StringWidth(text) < totalWidth ==>
      var n := totalWidth - StringWidth(text);
      var before := (n / 2) * |padChar|;
      && |r| == |text| + n * |padChar|
      && 0 <= before <= |r| - |text|
      && r[before..before + |text|] == text
      && StringWidth(r) == StringWidth(text) + n * StringWidth(padChar)
  {
    var currentWidth := StringWidth(text);
    if currentWidth >= totalWidth then text
    else
      var padWidth := totalWidth - currentWidth;
      CenteredShape(padChar, text, padWidth);
      Centered(padChar, text, padWidth)
  }

  /** `text` between floor(n/2) copies of `pad` and the other ceil(n/2). */
  function Centered(pad: string, text: string, n: nat): string {
    Repeat(pad, n / 2) + text + Repeat(pad, n - n / 2)
  }

  /** A text followed by `b` copies of a pad of length `p` and width `w`. */
  lemma PaddedAfter(m: string, r: string, b: nat, p: nat, w: nat)
    requires |r| == b * p && StringWidth(r) == b * w
    ensures |m + r| == |m| + b * p
    ensures (m + r)[..|m|] == m
    ensures StringWidth(m + r) == StringWidth(m) + b * w
  {
    StringWidthAppend(m, r);
    assert (m + r)[..|m|] == m;
  }

  /** A text preceded by `a` copies of a pad of length `p` and width `w`. */
  lemma PaddedBefore(l: string, m: string, a: nat, p: nat, w: nat)
    requires |l| == a * p && StringWidth(l) == a * w
    ensures |l + m| == |m| + a * p
    ensures (l + m)[|l + m| - |m|..] == m
    ensures StringWidth(l + m) == StringWidth(m) + a * w
  {
    StringWidthAppend(l, m);
    assert (l + m)[|l + m| - |m|..] == m;
  }

  /** Where the text sits in `Centered`, its length and its width. */
  lemma CenteredShape(pad: string, text: string, n: nat)
    ensures var r := Centered(pad, text, n);
            var before := (n / 2) * |pad|;
            && |r| == |text| + n * |pad|
            && 0 <= before <= |r| - |text|
            && r[before..before + |text|] == text
            && StringWidth(r) == StringWidth(text) + n * StringWidth(pad)
  {
    var a := n / 2;
    PaddedOnBothSides(Repeat(pad, a), text, Repeat(pad, n - a), a, n - a, n, |pad|, StringWidth(pad));
  }

  /** A text between `a` and `b` copies of a pad of length `p` and width `w`:
      where the text sits, the total length and the total width. */
  lemma PaddedOnBothSides(l: string, m: string, r: string, a: nat, b: nat, n: nat, p: nat, w: nat)
    requires a + b == n
    requires |l| == a * p && |r| == b * p
    requires StringWidth(l) == a * w && StringWidth(r) == b * w
    ensures |l + m + r| == |m| + n * p
    ensures 0 <= a * p <= |l + m + r| - |m|
    ensures (l + m + r)[a * p..a * p + |m|] == m
    ensures StringWidth(l + m + r) == StringWidth(m) + n * w
  {
    StringWidthAppend(l, m);
    StringWidthAppend(l + m, r);
    assert (l + m + r)[|l|..|l| + |m|] == m;
    SplitProduct(a, b, p);
    SplitProduct(a, b, w);
  }


  /** Distributivity, for the two halves of centred padding. */
  lemma SplitProduct(a: nat, b: nat, c: nat)
    ensures a * c + b * c == (a + b) * c
  {
  }

  /** Padding a text with spaces makes it exactly `totalWidth` cells wide, or
      leaves it alone when it is already at least that wide. */
  lemma PadWithSpacesReachesWidth(text: string, totalWidth: int)
    ensures StringWidth(PadRight(text, totalWidth, " ")) == if StringWidth(text) >= totalWidth then StringWidth(text) else totalWidth
    ensures StringWidth(PadLeft(text, totalWidth, " ")) == if StringWidth(text) >= totalWidth then StringWidth(text) else totalWidth
    ensures StringWidth(PadCenter(text, totalWidth, " ")) == if StringWidth(text) >= totalWidth then StringWidth(text) else totalWidth
  {
    assert StringWidth(" ") == 1 by {
      assert " "[1..] == "";
    }
  }

  /** With a one-character pad, every cell the padding adds holds that
      character, and the text itself sits unchanged between the pads. */
  lemma PadWithCharFills(text: string, totalWidth: int, pad: string)
    requires |pad| == 1 && StringWidth(text) < totalWidth
    ensures var r := PadRight(text, totalWidth, pad);
            r[..|text|] == text && forall k :: |text| <= k < |r| ==> r[k] == pad[0]
    ensures var r := PadLeft(text, totalWidth, pad);
            r[|r| - |text|..] == text && forall k :: 0 <= k < |r| - |text| ==> r[k] == pad[0]
    ensures var r := PadCenter(text, totalWidth, pad);
            var before := (totalWidth - StringWidth(text)) / 2;
            && r[before..before + |text|] == text
            && (forall k :: 0 <= k < before ==> r[k] == pad[0])
            && (forall k :: before + |text| <= k < |r| ==> r[k] == pad[0])
  {
    PadRightFills(text, totalWidth, pad);
    PadLeftFills(text, totalWidth, pad);
    PadCenterFills(text, totalWidth, pad);
  }

  lemma PadRightFills(text: string, totalWidth: int, pad: string)
    requires |pad| == 1 && StringWidth(text) < totalWidth
    ensures var r := PadRight(text, totalWidth, pad);
            r[..|text|] == text && forall k :: |text| <= k < |r| ==> r[k] == pad[0]
  {
    var n := totalWidth - StringWidth(text);
    var r, p := PadRight(text, totalWidth, pad), Repeat(pad, n);
    assert r == "" + text + p;
    RepeatChar(pad, n);
    CopiesAround(r, "", text, p, pad[0]);
  }

  lemma PadLeftFills(text: string, totalWidth: int, pad: string)
    requires |pad| == 1 && StringWidth(text) < totalWidth
    ensures var r := PadLeft(text, totalWidth, pad);
            r[|r| - |text|..] == text && forall k :: 0 <= k < |r| - |text| ==> r[k] == pad[0]
  {
    var n := totalWidth - StringWidth(text);
    var r, p := PadLeft(text, totalWidth, pad), Repeat(pad, n);
    assert r == p + text + "";
    RepeatChar(pad, n);
    CopiesAround(r, p, text, "", pad[0]);
  }

  lemma PadCenterFills(text: string, totalWidth: int, pad: string)
    requires |pad| == 1 && StringWidth(text) < totalWidth
    ensures var r := PadCenter(text, totalWidth, pad);
            var before := (totalWidth - StringWidth(text)) / 2;
            && r[before..before + |text|] == text
            && (forall k :: 0 <= k < before ==> r[k] == pad[0])
            && (forall k :: before + |text| <= k < |r| ==> r[k] == pad[0])
  {
    CenterFill(PadCenter(text, totalWidth, pad), text, pad, totalWidth - StringWidth(text));
  }

  /** Text between `a` and `b` copies of a one-character pad. */
  lemma CenterFill(r: string, text: string, pad: string, n: nat)
    requires |pad| == 1 && r == Centered(pad, text, n)
    ensures r[n / 2..n / 2 + |text|] == text
    ensures forall k :: 0 <= k < n / 2 ==> r[k] == pad[0]
    ensures forall k :: n / 2 + |text| <= k < |r| ==> r[k] == pad[0]
  {
    var l := Repeat(pad, n / 2);
    assert |l| == n / 2;
    RepeatChar(pad, n / 2);
    RepeatChar(pad, n - n / 2);
    CopiesAround(r, l, text, Repeat(pad, n - n / 2), pad[0]);
  }

  /** Text between two runs of copies of `c`: every cell outside the text is `c`. */
  lemma CopiesAround(s: string, l: string, m: string, r: string, c: char)
    requires s == l + m + r
    requires forall k :: 0 <= k < |l| ==> l[k] == c
    requires forall k :: 0 <= k < |r| ==> r[k] == c
    ensures s[|l|..|l| + |m|] == m
    ensures forall k :: 0 <= k < |l| ==> s[k] == c
    ensures forall k :: |l| + |m| <= k < |s| ==> s[k] == c
  {
    assert s[|l|..|l| + |m|] == m;
    forall k | |l| + |m| <= k < |s|
      ensures s[k] == c
    {
      assert s[k] == r[k - |l| - |m|];
    }
  }
}
