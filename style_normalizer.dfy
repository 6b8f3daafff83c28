/**
 * `normalizeStyle`: the canonical form of a CSS inline-style string, used to
 * compare `style` attributes without regard to the order of declarations or
 * to the whitespace around them.
 *
 * The string is split on `;`, each piece is trimmed, empty pieces are
 * dropped, each remaining piece is split on `:` and rebuilt as
 * `property:value` from its first two trimmed fields (or dropped when either
 * is empty), and the declarations are sorted in code-unit order and joined
 * with `;`. Duplicate declarations are kept.
 */
module StyleNormalizer {
  import opened JsArray
  import opened JsText

  /** `Boolean(s)` for a string: only the empty string is falsy. */
  predicate Truthy(s: JsString) {
    s != []
  }

  /** A property or a value as the output writes it. */
  predicate IsField(x: JsString) {
    x != [] && IsTrimmed(x) && Colon !in x && Semicolon !in x
  }

  /** `property:value` with exactly one colon, both sides non-empty and trimmed. */
  ghost predicate IsNormalDeclaration(d: JsString) {
    exists k :: 0 <= k < |d| && d[k] == Colon && IsField(d[..k]) && IsField(d[k + 1..])
  }

  /**
   * The shape of a whole output string: empty, or `;`-separated segments
   * that are normal declarations in ascending code-unit order.
   */
  ghost predicate IsNormalStyle(s: JsString) {
    s == [] ||
    var segments := Split(s, Semicolon);
    Sorted(segments, CodeUnitLe) &&
    forall i :: 0 <= i < |segments| ==> IsNormalDeclaration(segments[i])
  }

  /** The `;`-separated segments of an output string; none when it is empty. */
  function Segments(s: JsString): seq<JsString> {
    if s == [] then [] else Split(s, Semicolon)
  }

  /** A trimmed piece names a property and a value: two `:`-fields, neither blank. */
  predicate HasPropertyAndValue(piece: JsString) {
    var fields := Split(piece, Colon);
    |fields| >= 2 && !IsBlank(fields[0]) && !IsBlank(fields[1])
  }

  /**
   * The callback of the second `map`: `property:value` from the first two
   * trimmed `:`-fields, or the empty string when the property is empty or
   * the value is empty or missing (destructuring gives `undefined`).
   */
  function Declaration(piece: JsString): (r: JsString)
    ensures r != [] <==> HasPropertyAndValue(piece)
  {
    var fields := Map(Trim, Split(piece, Colon));
    if Truthy(fields[0]) && |fields| >= 2 && Truthy(fields[1]) then fields[0] + [Colon] + fields[1]
    else []
  }

  /**
   * The declarations a list of trimmed pieces yields: both filters and the
   * rewrite. They are the rewrites of the pieces with a non-blank property
   * and a non-blank value, one per piece, in input order.
   */
  function Kept(xs: seq<JsString>): (r: seq<JsString>)
    ensures r == Map(Declaration, Filter(HasPropertyAndValue, xs))
    ensures |r| == |Filter(HasPropertyAndValue, xs)|
  {
    assert forall x :: HasPropertyAndValue(x) == (Truthy(x) && Truthy(Declaration(x))) by {
      forall x ensures HasPropertyAndValue(x) == (Truthy(x) && Truthy(Declaration(x))) {
        if x == [] {
          assert !HasPropertyAndValue(x);
        }
      }
    }
    FilterMapFilter(Truthy, Declaration, Truthy, HasPropertyAndValue, xs);
    Filter(Truthy, Map(Declaration, Filter(Truthy, xs)))
  }

  /** A trimmed, non-empty piece free of `:` and `;` is a field. */
  lemma TrimmedField(x: JsString)
    requires Colon !in x && Semicolon !in x && Trim(x) != []
    ensures IsField(Trim(x))
  {
    TrimKeepsOut(x, Colon);
    TrimKeepsOut(x, Semicolon);
  }

  /** Two fields joined by a colon make a normal declaration. */
  lemma FieldsDeclaration(p: JsString, v: JsString)
    requires IsField(p) && IsField(v)
    ensures IsNormalDeclaration(p + [Colon] + v)
  {
    var d := p + [Colon] + v;
    assert d[|p|] == Colon && d[..|p|] == p && d[|p| + 1..] == v;
  }

  /** A kept declaration taken from a `;`-free piece is in normal form. */
  lemma DeclarationShape(piece: JsString)
    requires Semicolon !in piece
    ensures Declaration(piece) == [] || IsNormalDeclaration(Declaration(piece))
  {
    var parts := Split(piece, Colon);
    if Declaration(piece) != [] {
      SplitKeepsOut(piece, Colon, Semicolon);
      TrimmedField(parts[0]);
      TrimmedField(parts[1]);
      FieldsDeclaration(Trim(parts[0]), Trim(parts[1]));
    }
  }

  lemma NormalDeclarationParts(d: JsString) returns (p: JsString, v: JsString)
    requires IsNormalDeclaration(d)
    ensures IsField(p) && IsField(v) && d == p + [Colon] + v
    ensures d != [] && IsTrimmed(d) && Semicolon !in d
  {
    var k :| 0 <= k < |d| && d[k] == Colon && IsField(d[..k]) && IsField(d[k + 1..]);
    p, v := d[..k], d[k + 1..];
    assert d == p + [Colon] + v;
  }

  /** A piece whose `:`-fields are two trimmed, non-empty strings is rewritten to them. */
  lemma DeclarationOfFields(piece: JsString, p: JsString, v: JsString)
    requires Split(piece, Colon) == [p, v]
    requires p != [] && v != [] && IsTrimmed(p) && IsTrimmed(v)
    ensures Declaration(piece) == p + [Colon] + v
  {
    var fields := Map(Trim, Split(piece, Colon));
    assert fields == [p, v] by {
      MapFixed(Trim, [p, v]);
    }
    assert Truthy(fields[0]) && |fields| >= 2 && Truthy(fields[1]);
  }

  /** A declaration already in normal form is trimmed, kept and rewritten to itself. */
  lemma DeclarationOfNormal(d: JsString)
    requires IsNormalDeclaration(d)
    ensures Trim(d) == d && Truthy(d)
    ensures Declaration(d) == d
  {
    var p, v := NormalDeclarationParts(d);
    assert Split(d, Colon) == [p, v] by {
      assert Join([p, v], Colon) == d;
      SplitJoin([p, v], Colon);
    }
    DeclarationOfFields(d, p, v);
  }

  /** Every kept declaration is the rewrite of one of the pieces. */
  lemma KeptSource(xs: seq<JsString>, d: JsString) returns (x: JsString)
    requires d in Kept(xs)
    ensures x in xs && d == Declaration(x) && d != []
  {
    var y := MapSource(Declaration, Filter(Truthy, xs), d);
    x := y;
  }

  /**
   * The declarations that survive both `filter(Boolean)` steps, in input
   * order; every one of them is in normal form.
   */
  function Declarations(style: JsString): (r: seq<JsString>)
    ensures forall i :: 0 <= i < |r| ==> IsNormalDeclaration(r[i])
  {
    var pieces := Split(style, Semicolon);
    var ds := Kept(Map(Trim, pieces));
    assert forall i :: 0 <= i < |ds| ==> IsNormalDeclaration(ds[i]) by {
      forall i | 0 <= i < |ds| ensures IsNormalDeclaration(ds[i]) {
        var x := KeptSource(Map(Trim, pieces), ds[i]);
        var piece := MapSource(Trim, pieces, x);
        TrimKeepsOut(piece, Semicolon);
        DeclarationShape(x);
      }
    }
    ds
  }

  /**
   * Joining sorted normal declarations gives a normal style string, whose
   * segments are those declarations.
   */
  lemma JoinNormal(ds: seq<JsString>)
    requires Sorted(ds, CodeUnitLe)
    requires forall i :: 0 <= i < |ds| ==> IsNormalDeclaration(ds[i])
    ensures Segments(Join(ds, Semicolon)) == ds
    ensures IsNormalStyle(Join(ds, Semicolon))
  {
    forall i | 0 <= i < |ds| ensures ds[i] != [] && Semicolon !in ds[i] {
      var p, v := NormalDeclarationParts(ds[i]);
    }
    JoinSeparators(ds, Semicolon);
    if ds != [] {
      SplitJoin(ds, Semicolon);
    }
  }

  /**
   * `normalizeStyle(style)`. The empty string is returned at once; any other
   * input goes through the split/trim/filter/map/filter/sort/join chain.
   * The result is always a normal style string.
   */
  function NormalizeStyle(style: JsString): (r: JsString)
    ensures style == [] ==> r == []
    ensures IsNormalStyle(r)
  {
    if style == [] then []
    else
      var sorted := ToSorted(Declarations(style), CodeUnitLe);
      CodeUnitOrder();
      ToSortedSorted(Declarations(style), CodeUnitLe);
      assert forall i :: 0 <= i < |sorted| ==> sorted[i] in multiset(Declarations(style));
      JoinNormal(sorted);
      Join(sorted, Semicolon)
  }

  /** The early return for the empty string agrees with the chain. */
  lemma EmptyStyleAgrees()
    ensures NormalizeStyle([]) == Join(ToSorted(Declarations([]), CodeUnitLe), Semicolon)
  {
    assert Split([], Semicolon) == [[]];
    assert Map(Trim, [[]]) == [[]];
    assert Filter(Truthy, [[]]) == [];
  }

  lemma Chain(style: JsString)
    ensures NormalizeStyle(style) == Join(ToSorted(Declarations(style), CodeUnitLe), Semicolon)
  {
    if style == [] {
      EmptyStyleAgrees();
    }
  }

  /** Each segment of a normal style string survives the chain as it is. */
  lemma DeclarationsOfNormal(s: JsString)
    requires s != [] && IsNormalStyle(s)
    ensures Declarations(s) == Split(s, Semicolon)
  {
    var segments := Split(s, Semicolon);
    forall i | 0 <= i < |segments|
      ensures Trim(segments[i]) == segments[i] && Truthy(segments[i])
      ensures Declaration(segments[i]) == segments[i]
    {
      DeclarationOfNormal(segments[i]);
    }
    MapFixed(Trim, segments);
    MapFixed(Declaration, segments);
  }

  /** Normal style strings, and only those, are left unchanged. */
  lemma NormalStyleFixed(s: JsString)
    ensures NormalizeStyle(s) == s <==> IsNormalStyle(s)
  {
    if IsNormalStyle(s) && s != [] {
      DeclarationsOfNormal(s);
      ToSortedOfSorted(Split(s, Semicolon), CodeUnitLe);
      JoinSplit(s, Semicolon);
    }
  }

  /** Normalising twice is normalising once. */
  lemma NormalizeStyleIdempotent(style: JsString)
    ensures NormalizeStyle(NormalizeStyle(style)) == NormalizeStyle(style)
  {
    NormalStyleFixed(NormalizeStyle(style));
  }

  /**
   * The output never holds an empty segment: no `;` at either end and no
   * `;;` anywhere.
   */
  lemma NormalizeStyleSeparators(style: JsString)
    ensures var r := NormalizeStyle(style);
      && (r != [] ==> r[0] != Semicolon && r[|r| - 1] != Semicolon)
      && (forall i :: 0 <= i < |r| - 1 ==> !(r[i] == Semicolon && r[i + 1] == Semicolon))
  {
    var r := NormalizeStyle(style);
    if r != [] {
      var segments := Split(r, Semicolon);
      forall i | 0 <= i < |segments| ensures segments[i] != [] {
        var p, v := NormalDeclarationParts(segments[i]);
      }
      JoinSeparators(segments, Semicolon);
      JoinSplit(r, Semicolon);
    }
  }

  /**
   * No deduplication: the output segments are the surviving declarations,
   * duplicates included, and there are as many of them as there are
   * trimmed pieces with a non-blank property and a non-blank value.
   */
  lemma NormalizeStyleKeepsDuplicates(style: JsString)
    ensures multiset(Segments(NormalizeStyle(style))) == multiset(Declarations(style))
    ensures |Segments(NormalizeStyle(style))|
         == |Filter(HasPropertyAndValue, Map(Trim, Split(style, Semicolon)))|
  {
    Chain(style);
    var sorted := ToSorted(Declarations(style), CodeUnitLe);
    CodeUnitOrder();
    ToSortedSorted(Declarations(style), CodeUnitLe);
    assert forall i :: 0 <= i < |sorted| ==> sorted[i] in multiset(Declarations(style));
    JoinNormal(sorted);
  }

  /** A declaration written twice comes out twice. */
  lemma DuplicateDeclarationKept(d: JsString)
    requires IsNormalDeclaration(d)
    ensures NormalizeStyle(d + [Semicolon] + d) == d + [Semicolon] + d
  {
    CodeUnitLeTotal(d, d);
    assert Join([d, d], Semicolon) == d + [Semicolon] + d;
    JoinNormal([d, d]);
    NormalStyleFixed(d + [Semicolon] + d);
  }

  /** Reordering the `;`-separated pieces of the input does not change the output. */
  lemma NormalizeStylePermutationInvariant(s: JsString, t: JsString)
    requires multiset(Split(s, Semicolon)) == multiset(Split(t, Semicolon))
    ensures NormalizeStyle(s) == NormalizeStyle(t)
  {
    Chain(s);
    Chain(t);
    var ps, qs := Split(s, Semicolon), Split(t, Semicolon);
    MapPermutation(Trim, ps, qs);
    FilterPermutation(Truthy, Map(Trim, ps), Map(Trim, qs));
    MapPermutation(Declaration, Filter(Truthy, Map(Trim, ps)), Filter(Truthy, Map(Trim, qs)));
    FilterPermutation(Truthy, Map(Declaration, Filter(Truthy, Map(Trim, ps))),
                              Map(Declaration, Filter(Truthy, Map(Trim, qs))));
    CodeUnitOrder();
    ToSortedPermutationInvariant(Declarations(s), Declarations(t), CodeUnitLe);
  }

  /** Style strings built from the same declarations in any order normalise alike. */
  lemma PermutedDeclarations(ps: seq<JsString>, qs: seq<JsString>)
    requires |ps| >= 1
    requires forall i :: 0 <= i < |ps| ==> Semicolon !in ps[i]
    requires forall i :: 0 <= i < |qs| ==> Semicolon !in qs[i]
    requires multiset(ps) == multiset(qs)
    ensures NormalizeStyle(Join(ps, Semicolon)) == NormalizeStyle(Join(qs, Semicolon))
  {
    assert |qs| == |multiset(qs)| == |multiset(ps)| == |ps|;
    SplitJoin(ps, Semicolon);
    SplitJoin(qs, Semicolon);
    NormalizeStylePermutationInvariant(Join(ps, Semicolon), Join(qs, Semicolon));
  }
}
