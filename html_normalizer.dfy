/**
 * `normalizeHTML`: makes indented, multi-line markup comparable with the
 * markup an editor produces. An object `{ html }` is passed through as its
 * `html` string; a string has every line feed removed together with the run
 * of whitespace after it (`replaceAll(/\n\s*\/g, '')`).
 */
module HtmlNormalizer {
  import opened JsArray
  import opened JsText

  /** The argument of `normalizeHTML`: a string, or an object holding an `html` string. */
  datatype HtmlArgument = Markup(text: JsString) | Wrapped(html: JsString)

  /**
   * `s.replaceAll(/\n\s*\/g, '')`: scanning from the left, a line feed and
   * the greedy run of whitespace (line feeds included) after it are deleted;
   * every other code unit is copied.
   */
  function RemoveLineBreaks(s: JsString): (r: JsString)
    ensures LineFeed !in r
    ensures |r| <= |s|
    decreases |s|
  {
    if s == [] then []
    else if s[0] == LineFeed then RemoveLineBreaks(TrimStart(s[1..]))
    else [s[0]] + RemoveLineBreaks(s[1..])
  }

  /** `normalizeHTML(html)` */
  function NormalizeHtml(html: HtmlArgument): (r: JsString)
    ensures html.Wrapped? ==> r == html.html
    ensures html.Markup? ==> LineFeed !in r && |r| <= |html.text|
  {
    match html
    case Wrapped(h) => h
    case Markup(t) => RemoveLineBreaks(t)
  }

  /**
   * Position `i` of `s` lies in a run that starts with a line feed and
   * continues with whitespace only.
   */
  ghost predicate InBreak(s: JsString, i: int)
    requires 0 <= i < |s|
  {
    exists j :: 0 <= j <= i && s[j] == LineFeed && forall k :: j <= k <= i ==> IsWhitespace(s[k])
  }

  /** The code units of `s` from position `i` on that lie in no break, in their order. */
  ghost function KeptFrom(s: JsString, i: nat): JsString
    requires i <= |s|
    decreases |s| - i
  {
    if i == |s| then []
    else (if InBreak(s, i) then [] else [s[i]]) + KeptFrom(s, i + 1)
  }

  /** No break that began before `i` reaches past it. */
  ghost predicate BreakClosed(s: JsString, i: nat)
    requires i <= |s|
  {
    i == 0 || i == |s| || !IsWhitespace(s[i]) || !InBreak(s, i - 1)
  }

  /** Positions that all lie in breaks contribute nothing. */
  lemma {:induction false} SkipBreak(s: JsString, i: nat, m: nat)
    requires i <= m <= |s|
    requires forall k :: i <= k < m ==> InBreak(s, k)
    ensures KeptFrom(s, i) == KeptFrom(s, m)
    decreases m - i
  {
    if i < m {
      SkipBreak(s, i + 1, m);
      assert InBreak(s, i);
      assert KeptFrom(s, i) == [] + KeptFrom(s, i + 1);
      assert [] + KeptFrom(s, i + 1) == KeptFrom(s, i + 1);
    }
  }

  /** Where no break is open, a code unit other than a line feed starts none. */
  lemma OutsideBreak(s: JsString, i: nat)
    requires i < |s| && BreakClosed(s, i) && s[i] != LineFeed
    ensures !InBreak(s, i)
  {
  }

  /** A line feed at `i` and the whitespace up to `m` form one break. */
  lemma BreakRun(s: JsString, i: nat, m: nat)
    requires i < m <= |s| && s[i] == LineFeed
    requires forall k :: i < k < m ==> IsWhitespace(s[k])
    ensures forall k :: i <= k < m ==> InBreak(s, k)
  {
    forall k | i <= k < m ensures InBreak(s, k) {
      assert forall n :: i <= n <= k ==> IsWhitespace(s[n]);
    }
  }

  /** A code unit outside any break is copied, and no break is open after it. */
  lemma KeptStep(s: JsString, i: nat)
    requires i < |s| && BreakClosed(s, i) && s[i] != LineFeed
    ensures RemoveLineBreaks(s[i..]) == [s[i]] + RemoveLineBreaks(s[i + 1..])
    ensures KeptFrom(s, i) == [s[i]] + KeptFrom(s, i + 1)
    ensures BreakClosed(s, i + 1)
  {
    assert s[i..][0] == s[i] && s[i..][1..] == s[i + 1..];
    OutsideBreak(s, i);
  }

  /** A line feed at `i` and the whitespace after it, up to `m`, are dropped together. */
  lemma BreakEnd(s: JsString, i: nat) returns (m: nat)
    requires i < |s| && s[i] == LineFeed
    ensures i < m <= |s| && BreakClosed(s, m)
    ensures RemoveLineBreaks(s[i..]) == RemoveLineBreaks(s[m..])
    ensures KeptFrom(s, i) == KeptFrom(s, m)
  {
    assert s[i..][0] == s[i] && s[i..][1..] == s[i + 1..];
    var rest := TrimStart(s[i + 1..]);
    m := |s| - |rest|;
    assert rest == s[m..];
    assert forall k :: i < k < m ==> IsWhitespace(s[k]) by {
      forall k | i < k < m ensures IsWhitespace(s[k]) {
        assert s[k] == s[i + 1..][k - i - 1];
      }
    }
    BreakRun(s, i, m);
    SkipBreak(s, i, m);
  }

  /** `RemoveLineBreaks` from position `i` on, where no break is open. */
  lemma {:induction false} RemoveLineBreaksFrom(s: JsString, i: nat)
    requires i <= |s| && BreakClosed(s, i)
    ensures RemoveLineBreaks(s[i..]) == KeptFrom(s, i)
    decreases |s| - i
  {
    if i < |s| {
      if s[i] != LineFeed {
        KeptStep(s, i);
        RemoveLineBreaksFrom(s, i + 1);
      } else {
        var m := BreakEnd(s, i);
        RemoveLineBreaksFrom(s, m);
      }
    }
  }

  /**
   * The result is the input with every maximal run of a line feed and the
   * whitespace after it removed; all other code units are kept, in order.
   */
  lemma RemoveLineBreaksSpec(s: JsString)
    ensures RemoveLineBreaks(s) == KeptFrom(s, 0)
  {
    RemoveLineBreaksFrom(s, 0);
    assert s[0..] == s;
  }

  /** Markup without line feeds is left as it is. */
  lemma {:induction false} NoLineFeedUnchanged(s: JsString)
    requires LineFeed !in s
    ensures RemoveLineBreaks(s) == s
    decreases |s|
  {
    if s != [] {
      assert s[0] != LineFeed;
      NoLineFeedUnchanged(s[1..]);
      assert s == [s[0]] + s[1..];
    }
  }

  /** Normalising twice is normalising once. */
  lemma NormalizeHtmlIdempotent(s: JsString)
    ensures NormalizeHtml(Markup(NormalizeHtml(Markup(s)))) == NormalizeHtml(Markup(s))
  {
    NoLineFeedUnchanged(RemoveLineBreaks(s));
  }

  predicate IsVisible(c: CodeUnit) {
    !IsWhitespace(c)
  }

  /** Leading whitespace holds nothing visible. */
  lemma {:induction false} TrimStartKeepsVisible(t: JsString)
    ensures Filter(IsVisible, TrimStart(t)) == Filter(IsVisible, t)
    decreases |t|
  {
    if t != [] && IsWhitespace(t[0]) {
      TrimStartKeepsVisible(t[1..]);
      assert Filter(IsVisible, t) == [] + Filter(IsVisible, t[1..]);
    }
  }

  /** Only whitespace is removed: the non-whitespace code units all stay, in order. */
  lemma {:induction false} RemoveLineBreaksKeepsVisible(s: JsString)
    ensures Filter(IsVisible, RemoveLineBreaks(s)) == Filter(IsVisible, s)
    decreases |s|
  {
    if s != [] {
      if s[0] == LineFeed {
        RemoveLineBreaksKeepsVisible(TrimStart(s[1..]));
        TrimStartKeepsVisible(s[1..]);
        assert Filter(IsVisible, s) == [] + Filter(IsVisible, s[1..]);
      } else {
        RemoveLineBreaksKeepsVisible(s[1..]);
        FilterAppend(IsVisible, [s[0]], RemoveLineBreaks(s[1..]));
      }
    }
  }
}
