/**
 * JavaScript strings and the String.prototype operations the normalisers
 * use: `trim`, `split` with a one-character separator, `Array.prototype.join`
 * and the default string order of `toSorted`.
 *
 * A JavaScript string is a sequence of UTF-16 code units, and the default
 * sort compares strings code unit by code unit, so strings are modelled as
 * sequences of code units rather than as Dafny `string`s.
 */
module JsText {
  import opened JsArray

  /** A UTF-16 code unit. */
  newtype CodeUnit = x: int | 0 <= x < 0x1_0000

  type JsString = seq<CodeUnit>

  const LineFeed: CodeUnit := 0x0A
  const Colon: CodeUnit := 0x3A
  const Semicolon: CodeUnit := 0x3B

  /**
   * The ECMAScript WhiteSpace and LineTerminator code points: the set that
   * `trim` removes and that the regular-expression class `\s` matches.
   */
  predicate IsWhitespace(c: CodeUnit) {
    || c == 0x09 || c == 0x0A || c == 0x0B || c == 0x0C || c == 0x0D
    || c == 0x20 || c == 0xA0 || c == 0x1680
    || (0x2000 <= c <= 0x200A)
    || c == 0x2028 || c == 0x2029 || c == 0x202F || c == 0x205F
    || c == 0x3000 || c == 0xFEFF
  }

  /** Neither end of `s` is whitespace. */
  predicate IsTrimmed(s: JsString) {
    s == [] || (!IsWhitespace(s[0]) && !IsWhitespace(s[|s| - 1]))
  }

  /** `s.trimStart()`: the suffix left after the leading whitespace. */
  function TrimStart(s: JsString): (r: JsString)
    ensures |r| <= |s| && r == s[|s| - |r|..]
    ensures r == [] || !IsWhitespace(r[0])
    ensures forall i :: 0 <= i < |s| - |r| ==> IsWhitespace(s[i])
  {
    if s != [] && IsWhitespace(s[0]) then TrimStart(s[1..]) else s
  }

  /** `s.trimEnd()`: the prefix left before the trailing whitespace. */
  function TrimEnd(s: JsString): (r: JsString)
    ensures |r| <= |s| && r == s[..|r|]
    ensures r == [] || !IsWhitespace(r[|r| - 1])
    ensures forall i :: |r| <= i < |s| ==> IsWhitespace(s[i])
  {
    if s != [] && IsWhitespace(s[|s| - 1]) then TrimEnd(s[..|s| - 1]) else s
  }

  /** Every code unit of `s` is whitespace. */
  predicate IsBlank(s: JsString) {
    forall k :: 0 <= k < |s| ==> IsWhitespace(s[k])
  }

  /**
   * `s.trim()`: whitespace removed from both ends. The result is empty
   * exactly when `s` is blank, and a string with non-whitespace ends is its
   * own trim.
   */
  function Trim(s: JsString): (r: JsString)
    ensures IsTrimmed(r)
    ensures IsTrimmed(s) ==> r == s
    ensures r == [] <==> IsBlank(s)
  {
    TrimEnd(TrimStart(s))
  }

  /** The whitespace `trimStart` removes is a blank prefix. */
  lemma TrimStartBlank(s: JsString)
    ensures IsBlank(s[..|s| - |TrimStart(s)|])
  {
    var p := s[..|s| - |TrimStart(s)|];
    forall k | 0 <= k < |p| ensures IsWhitespace(p[k]) {
      assert p[k] == s[k];
    }
  }

  /** The whitespace `trimEnd` removes is a blank suffix. */
  lemma TrimEndBlank(s: JsString)
    ensures IsBlank(s[|TrimEnd(s)|..])
  {
    var p := s[|TrimEnd(s)|..];
    forall k | 0 <= k < |p| ensures IsWhitespace(p[k]) {
      assert p[k] == s[|TrimEnd(s)| + k];
    }
  }

  /**
   * The trim is the slice of `s` between a blank prefix and a blank suffix,
   * so it holds no code unit that `s` does not.
   */
  lemma TrimSlice(s: JsString) returns (i: nat, j: nat)
    ensures i <= j <= |s| && Trim(s) == s[i..j]
    ensures IsBlank(s[..i]) && IsBlank(s[j..])
  {
    var t := TrimStart(s);
    var r := TrimEnd(t);
    i, j := |s| - |t|, |s| - |t| + |r|;
    TrimStartBlank(s);
    TrimEndBlank(t);
    assert t == s[i..];
    assert r == t[..|r|] == s[i..j];
    assert t[|r|..] == s[j..];
  }

  /** A code unit absent from `s` is absent from its trim. */
  lemma TrimKeepsOut(s: JsString, c: CodeUnit)
    requires c !in s
    ensures c !in Trim(s)
  {
    var i, j := TrimSlice(s);
    var r := Trim(s);
    forall k | 0 <= k < |r| ensures r[k] != c {
      assert r[k] == s[i + k];
    }
  }

  /** A code unit absent from `s` is absent from every piece of a split of `s`. */
  lemma {:induction false} SplitKeepsOut(s: JsString, sep: CodeUnit, c: CodeUnit)
    requires c !in s
    ensures forall i :: 0 <= i < |Split(s, sep)| ==> c !in Split(s, sep)[i]
    decreases |s|
  {
    if s != [] {
      SplitKeepsOut(s[1..], sep, c);
      var rest := Split(s[1..], sep);
      assert s[0] != c;
      assert c !in rest[0];
    }
  }

  /**
   * `s.split(sep)` for a one-code-unit separator: the pieces between the
   * separators, never fewer than one (the empty string gives `[""]`).
   * Joining the pieces back with `sep` restores `s` (`JoinSplit`).
   */
  function Split(s: JsString, sep: CodeUnit): (r: seq<JsString>)
    ensures |r| >= 1
    ensures forall i :: 0 <= i < |r| ==> sep !in r[i]
  {
    if s == [] then [[]]
    else
      var rest := Split(s[1..], sep);
      if s[0] == sep then [[]] + rest
      else [[s[0]] + rest[0]] + rest[1..]
  }

  /** `xs.join(sep)` */
  function Join(xs: seq<JsString>, sep: CodeUnit): (r: JsString)
    decreases |xs|
  {
    if xs == [] then []
    else if |xs| == 1 then xs[0]
    else xs[0] + [sep] + Join(xs[1..], sep)
  }

  /** Separator-free pieces are joined with exactly one separator between each two neighbours. */
  lemma {:induction false} JoinSeparatorCount(xs: seq<JsString>, sep: CodeUnit)
    requires forall i :: 0 <= i < |xs| ==> sep !in xs[i]
    ensures multiset(Join(xs, sep))[sep] == if xs == [] then 0 else |xs| - 1
    decreases |xs|
  {
    if |xs| > 1 {
      assert forall i :: 0 <= i < |xs[1..]| ==> xs[1..][i] == xs[i + 1];
      JoinSeparatorCount(xs[1..], sep);
      assert multiset(xs[0])[sep] == 0;
    }
  }

  /** Joining the pieces of a split with the separator restores the string. */
  lemma {:induction false} JoinSplit(s: JsString, sep: CodeUnit)
    ensures Join(Split(s, sep), sep) == s
    decreases |s|
  {
    if s != [] {
      JoinSplit(s[1..], sep);
      var rest := Split(s[1..], sep);
      if s[0] == sep {
        assert ([[]] + rest)[1..] == rest;
        assert s == [sep] + s[1..];
      } else if |rest| == 1 {
        assert s == [s[0]] + s[1..];
      } else {
        var r := Split(s, sep);
        assert r[1..] == rest[1..];
        assert rest == [rest[0]] + rest[1..];
        assert Join(rest, sep) == rest[0] + [sep] + Join(rest[1..], sep);
        assert s == [s[0]] + s[1..];
      }
    }
  }

  lemma {:induction false} SplitPrefix(a: JsString, t: JsString, sep: CodeUnit)
    requires sep !in a
    ensures Split(a + t, sep) == [a + Split(t, sep)[0]] + Split(t, sep)[1..]
    decreases |a|
  {
    if a == [] {
      assert a + t == t;
      var r := Split(t, sep);
      assert a + r[0] == r[0];
      assert r == [r[0]] + r[1..];
    } else {
      assert (a + t)[0] == a[0] && (a + t)[1..] == a[1..] + t;
      SplitPrefix(a[1..], t, sep);
      assert [a[0]] + (a[1..] + Split(t, sep)[0]) == a + Split(t, sep)[0];
    }
  }

  /** Splitting a join of separator-free pieces gives the pieces back. */
  lemma {:induction false} SplitJoin(xs: seq<JsString>, sep: CodeUnit)
    requires |xs| >= 1
    requires forall i :: 0 <= i < |xs| ==> sep !in xs[i]
    ensures Split(Join(xs, sep), sep) == xs
    decreases |xs|
  {
    if |xs| == 1 {
      SplitPrefix(xs[0], [], sep);
      assert xs[0] + [] == xs[0];
    } else {
      SplitJoin(xs[1..], sep);
      var t := [sep] + Join(xs[1..], sep);
      assert Join(xs, sep) == xs[0] + t;
      SplitPrefix(xs[0], t, sep);
      assert t[0] == sep && t[1..] == Join(xs[1..], sep);
      assert Split(t, sep) == [[]] + xs[1..];
      assert xs[0] + [] == xs[0];
    }
  }

  /**
   * Joining non-empty, separator-free pieces never produces an empty piece:
   * no separator at either end and no two separators in a row.
   */
  lemma {:induction false} JoinSeparators(xs: seq<JsString>, sep: CodeUnit)
    requires forall i :: 0 <= i < |xs| ==> xs[i] != [] && sep !in xs[i]
    ensures var r := Join(xs, sep);
      && (r == [] <==> xs == [])
      && (r != [] ==> r[0] != sep && r[|r| - 1] != sep)
      && (forall i :: 0 <= i < |r| - 1 ==> !(r[i] == sep && r[i + 1] == sep))
    decreases |xs|
  {
    if |xs| > 1 {
      JoinSeparators(xs[1..], sep);
      var a, t := xs[0], Join(xs[1..], sep);
      var r := Join(xs, sep);
      assert r == a + [sep] + t;
      assert a[0] == r[0] && a[|a| - 1] == r[|a| - 1];
      forall i | 0 <= i < |r| - 1 ensures !(r[i] == sep && r[i + 1] == sep) {
        if i < |a| {
          assert r[i] == a[i];
          assert a[i] in a;
        } else if i > |a| {
          assert r[i] == t[i - |a| - 1] && r[i + 1] == t[i - |a|];
        }
      }
    }
  }

  /**
   * The order the default `toSorted()` uses on strings: code unit by code
   * unit, a proper prefix first.
   */
  predicate CodeUnitLe(a: JsString, b: JsString) {
    a == [] || (b != [] && (a[0] < b[0] || (a[0] == b[0] && CodeUnitLe(a[1..], b[1..]))))
  }

  /** `a` and `b` agree before position `k`, and at `k` the code unit of `a` is the smaller. */
  predicate FirstLess(a: JsString, b: JsString, k: int) {
    0 <= k < |a| && k < |b| && a[..k] == b[..k] && a[k] < b[k]
  }

  /**
   * The order by its usual definition: `a` comes first when it is a prefix
   * of `b`, or when at the first position where they differ its code unit
   * is the smaller.
   */
  lemma {:induction false} CodeUnitLeSpec(a: JsString, b: JsString)
    ensures CodeUnitLe(a, b) <==> (a <= b || exists k :: FirstLess(a, b, k))
    decreases |a|
  {
    if a != [] && b != [] {
      if a[0] < b[0] {
        assert FirstLess(a, b, 0);
      } else if a[0] == b[0] {
        CodeUnitLeSpec(a[1..], b[1..]);
        assert a <= b <==> a[1..] <= b[1..] by {
          assert a == [a[0]] + a[1..] && b == [b[0]] + b[1..];
        }
        if k :| FirstLess(a, b, k) {
          FirstLessShift(a, b, k - 1);
        }
        if k :| FirstLess(a[1..], b[1..], k) {
          FirstLessShift(a, b, k);
        }
      }
    }
  }

  /** Past an equal first code unit, the first difference moves one place. */
  lemma FirstLessShift(a: JsString, b: JsString, k: int)
    requires a != [] && b != [] && a[0] == b[0] && k >= -1
    ensures FirstLess(a, b, k + 1) <==> k >= 0 && FirstLess(a[1..], b[1..], k)
  {
    if 0 <= k < |a| - 1 && k < |b| - 1 {
      assert a[..k + 1] == [a[0]] + a[1..][..k];
      assert b[..k + 1] == [b[0]] + b[1..][..k];
    }
  }

  lemma {:induction false} CodeUnitLeTotal(a: JsString, b: JsString)
    ensures CodeUnitLe(a, b) || CodeUnitLe(b, a)
    decreases |a|
  {
    if a != [] && b != [] && a[0] == b[0] {
      CodeUnitLeTotal(a[1..], b[1..]);
    }
  }

  lemma {:induction false} CodeUnitLeTransitive(a: JsString, b: JsString, c: JsString)
    requires CodeUnitLe(a, b) && CodeUnitLe(b, c)
    ensures CodeUnitLe(a, c)
    decreases |a|
  {
    if a != [] && a[0] == b[0] && b[0] == c[0] {
      CodeUnitLeTransitive(a[1..], b[1..], c[1..]);
    }
  }

  lemma {:induction false} CodeUnitLeAntisymmetric(a: JsString, b: JsString)
    requires CodeUnitLe(a, b) && CodeUnitLe(b, a)
    ensures a == b
    decreases |a|
  {
    if a != [] {
      CodeUnitLeAntisymmetric(a[1..], b[1..]);
      assert a == [a[0]] + a[1..] && b == [b[0]] + b[1..];
    }
  }

  /** Code-unit order is a total order on strings. */
  lemma CodeUnitOrder()
    ensures TotalPreorder(CodeUnitLe) && Antisymmetric(CodeUnitLe)
  {
    forall a, b ensures CodeUnitLe(a, b) || CodeUnitLe(b, a) {
      CodeUnitLeTotal(a, b);
    }
    forall a, b, c | CodeUnitLe(a, b) && CodeUnitLe(b, c) ensures CodeUnitLe(a, c) {
      CodeUnitLeTransitive(a, b, c);
    }
    forall a, b | CodeUnitLe(a, b) && CodeUnitLe(b, a) ensures a == b {
      CodeUnitLeAntisymmetric(a, b);
    }
  }
}
