# Markup normalisers of the Quill module-template test helpers

This project models, in Dafny, the three normalisers in `src/__tests__/utils.ts` of a Quill
editor module template. Its test suite uses them to compare the markup the editor produces
with the markup a test expects:

- `normalizeHTML` takes either a string or an object `{ html }`. For an object it returns its
  `html` field. For a string it deletes every line feed together with the run of whitespace
  that follows it.
- `normalizeStyle` puts a CSS inline-style string into canonical form. It works in these steps:
  - split the string on `;` and trim each piece;
  - drop the empty pieces;
  - rebuild each remaining piece as `property:value` from its first two trimmed `:`-fields, or
    drop it when either field is empty (a value that itself contains `:` is cut short at that
    colon, as the destructuring in the code does);
  - sort the declarations in the default (code-unit) order;
  - join them with `;`.
- `sortAttributes` works in place. It empties an element's attribute list one
  `removeAttribute` at a time, then puts the attributes back in name order with
  `setAttribute`. It then does the same for every HTML element reachable through HTML
  children.

The files are:

- `js_array.dfy` (module `JsArray`) holds `Array.prototype.map`, `filter` and `toSorted` as
  functions. `toSorted` is a stable insertion sort under a "may come before" relation. The
  module proves that it sorts, permutes and is stable. Under an order with no ties between
  distinct elements, such as the code-unit order of `normalizeStyle`, the result also depends
  only on the multiset of the input. Under a comparator with ties, as `localeCompare` can be,
  the input order of tied elements decides their output order (`ToSortedStable`).
- `js_text.dfy` (module `JsText`) models JavaScript strings as sequences of UTF-16 code units.
  It holds `trim`, one-character `split`, `join`, and the code-unit order that the default
  `toSorted()` uses.
- `style_normalizer.dfy` (module `StyleNormalizer`) models `normalizeStyle`.
- `html_normalizer.dfy` (module `HtmlNormalizer`) models `normalizeHTML`. It also gives a
  reference characterisation of the regular-expression replacement: the code units kept are
  exactly those that lie in no "line feed, then whitespace" run.
- `attribute_sorter.dfy` (module `AttributeSorter`) models `sortAttributes` imperatively:
  - `Element` is a class whose attribute list is a mutable field.
  - Its child list is a constant, and `Repr` is the set of elements in its subtree.
  - The removal loop, the re-insertion loop and the walk over the children are methods with
    loop invariants.
  - Each is proved against the function `ToSorted`, and the properties of that function are
    proved as lemmas.

`normalizeStyle` keeps duplicate declarations. The code has no deduplication step
(`NormalizeStyleKeepsDuplicates`, `DuplicateDeclarationKept`).

## Model

| member | source | states |
|---|---|---|
| JsArray.Map | src/__tests__/utils.ts:13-18 | `map` keeps the length and applies the callback at every index |
| JsArray.Filter | src/__tests__/utils.ts:14 | `filter(Boolean)` keeps only elements that satisfy the test and are in the input, and keeps the input when every element does |
| JsArray.FilterMultiset | src/__tests__/utils.ts:14 | `filter` keeps every element that satisfies the test, as often as it occurs, and no other element |
| JsArray.MapPermutation | src/__tests__/utils.ts:13 | mapping permuted inputs gives permuted outputs |
| JsArray.FilterPermutation | src/__tests__/utils.ts:14 | filtering permuted inputs gives permuted outputs |
| JsArray.FilterMapFilter | src/__tests__/utils.ts:14-19 | the filter, map, filter chain equals mapping what one filter by the combined test keeps |
| JsArray.ToSorted | src/__tests__/utils.ts:20 | `toSorted` returns a permutation of its input of the same length |
| JsArray.ToSortedSorted | src/__tests__/utils.ts:20 | under a total preorder the result of `toSorted` is sorted |
| JsArray.ToSortedOfSorted | src/__tests__/utils.ts:20 | an already sorted array comes back unchanged |
| JsArray.SortedPermutationsEqual | src/__tests__/utils.ts:20 | under an antisymmetric order two sorted permutations of each other are equal |
| JsArray.ToSortedPermutationInvariant | src/__tests__/utils.ts:20 | under a total order the result depends only on the multiset of the input |
| JsArray.ToSortedStable | src/__tests__/utils.ts:26 | the sort is stable: elements that compare equal keep their relative order |
| JsText.Trim | src/__tests__/utils.ts:13 | `trim` leaves no whitespace at either end, is empty exactly for a blank string, and leaves a trimmed string unchanged |
| JsText.TrimSlice | src/__tests__/utils.ts:13 | the trim is a slice of the input between a blank prefix and a blank suffix |
| JsText.Split | src/__tests__/utils.ts:12 | `split` gives at least one piece (`[""]` for the empty string), and no piece contains the separator |
| JsText.JoinSplit | src/__tests__/utils.ts:12 | joining the pieces of a split with the separator restores the string |
| JsText.JoinSeparatorCount | src/__tests__/utils.ts:21 | `join` puts exactly one separator between each two neighbouring pieces: separator-free pieces give `n - 1` separators |
| JsText.SplitJoin | src/__tests__/utils.ts:21 | splitting a join of separator-free pieces gives the pieces back |
| JsText.JoinSeparators | src/__tests__/utils.ts:21 | a join of non-empty, separator-free pieces has no separator at either end and no two separators in a row |
| JsText.CodeUnitLeSpec | src/__tests__/utils.ts:20 | the default `toSorted()` order puts `a` first exactly when `a` is a prefix of `b` or has the smaller code unit at the first position where they differ |
| JsText.CodeUnitOrder | src/__tests__/utils.ts:20 | the default string order is a total, antisymmetric preorder |
| StyleNormalizer.Declaration | src/__tests__/utils.ts:15-18 | the rewrite of a piece is non-empty exactly when its first two `:`-fields are both non-blank |
| StyleNormalizer.DeclarationShape | src/__tests__/utils.ts:16-17 | a kept rewrite is `property:value` with exactly one colon and non-empty, trimmed, `;`-free sides |
| StyleNormalizer.DeclarationOfNormal | src/__tests__/utils.ts:13-17 | a declaration already in that form is left alone by the trim and by the rewrite |
| StyleNormalizer.Kept | src/__tests__/utils.ts:14-19 | the `filter`, `map`, `filter` chain yields exactly the rewrites of the trimmed pieces with a non-blank property and a non-blank value, one per piece, in input order |
| StyleNormalizer.Declarations | src/__tests__/utils.ts:11-19 | every declaration that survives the split, trim, filters and rewrite is in normal form |
| StyleNormalizer.NormalizeStyle | src/__tests__/utils.ts:9-22 | the empty string gives the empty string, and every output is `;`-separated normal declarations in ascending code-unit order |
| StyleNormalizer.EmptyStyleAgrees | src/__tests__/utils.ts:10 | the early return for the empty string agrees with what the chain would give |
| StyleNormalizer.NormalStyleFixed | src/__tests__/utils.ts:9-22 | a string is left unchanged if and only if it is already in normal form |
| StyleNormalizer.NormalizeStyleIdempotent | src/__tests__/utils.ts:9-22 | normalising twice is normalising once |
| StyleNormalizer.NormalizeStyleSeparators | src/__tests__/utils.ts:19-21 | the output has no `;` at either end and no `;;` |
| StyleNormalizer.NormalizeStyleKeepsDuplicates | src/__tests__/utils.ts:19-21 | the output segments are the surviving declarations as a multiset, duplicates included, and their number is the number of pieces with a property and a value |
| StyleNormalizer.DuplicateDeclarationKept | src/__tests__/utils.ts:19-21 | a declaration written twice appears twice in the output |
| StyleNormalizer.NormalizeStylePermutationInvariant | src/__tests__/utils.ts:11-21 | reordering the `;`-separated pieces of the input does not change the output |
| StyleNormalizer.PermutedDeclarations | src/__tests__/utils.ts:11-21 | style strings joined from the same pieces in any order normalise alike |
| HtmlNormalizer.RemoveLineBreaks | src/__tests__/utils.ts:8 | the result holds no line feed and is no longer than the input |
| HtmlNormalizer.NormalizeHtml | src/__tests__/utils.ts:8 | an `{ html }` object gives its `html` field unchanged, and a string gives a result without line feeds |
| HtmlNormalizer.RemoveLineBreaksSpec | src/__tests__/utils.ts:8 | the result is exactly the code units that lie in no run of a line feed followed by whitespace, in their order |
| HtmlNormalizer.NoLineFeedUnchanged | src/__tests__/utils.ts:8 | markup without line feeds is returned unchanged |
| HtmlNormalizer.NormalizeHtmlIdempotent | src/__tests__/utils.ts:8 | normalising twice is normalising once |
| HtmlNormalizer.RemoveLineBreaksKeepsVisible | src/__tests__/utils.ts:8 | only whitespace is removed: the non-whitespace code units stay, in order |
| AttributeSorter.WithAttribute | src/__tests__/utils.ts:33 | `setAttribute` appends an attribute with a new name at the end; for an existing name, the first attribute with that name takes the new value in place and every other entry stays |
| AttributeSorter.RemoveFirst | src/__tests__/utils.ts:29 | with distinct names, removing the first attribute by name removes exactly that attribute |
| AttributeSorter.Element.RemoveAttribute | src/__tests__/utils.ts:29 | `removeAttribute` leaves the list filtered by "name differs", which keeps the other attributes in order |
| AttributeSorter.RemovedByName | src/__tests__/utils.ts:29 | after the removal no attribute has that name, and every attribute with another name is still there, as often as before |
| AttributeSorter.Element.SetAttribute | src/__tests__/utils.ts:33 | `setAttribute` replaces the value in place or appends a new attribute |
| AttributeSorter.Element.RemoveAllAttributes | src/__tests__/utils.ts:28-30 | the removal loop ends with an empty attribute list |
| AttributeSorter.Element.SetAllAttributes | src/__tests__/utils.ts:32-34 | on an empty list, re-adding distinct attributes one by one gives exactly that list, in that order |
| AttributeSorter.ToSortedNamesUnique | src/__tests__/utils.ts:26 | sorting keeps the attribute names distinct |
| AttributeSorter.ByName | src/__tests__/utils.ts:26 | the comparator looks at attribute names only: attributes with the same names compare alike whatever their values |
| AttributeSorter.ByNamePreorder | src/__tests__/utils.ts:26 | comparing by name with a total preorder on names is a total preorder on attributes |
| AttributeSorter.SortedAttributesSpec | src/__tests__/utils.ts:25-26 | the new list is a permutation of the old one, sorted by name, with distinct names, and attributes whose names compare equal keep their order |
| AttributeSorter.SortAttributes | src/__tests__/utils.ts:24-42 | every element of the tree ends with its old attributes sorted by name, names stay distinct, and only attribute lists change |
| AttributeSorter.VisitChild | src/__tests__/utils.ts:38-40 | an HTML child has its whole subtree sorted, and any other node is skipped |
| AttributeSorter.SortChildren | src/__tests__/utils.ts:37-41 | every element strictly below the element ends with its old attributes sorted, and the element's own list is not touched |

## Left out

- `replaceAttrEmptyRow`, the `toEqualHTML` matcher, `expectDelta`, `simulatePasteHTML` and
  `createEditor` in the same file are left out. They parse JSON, drive the DOM parser, Quill
  and vitest, and are not normalisers.
- The build scripts and the documentation site are left out. They are not part of the helpers.
- `localeCompare` is not modelled. Its result depends on the locale, so the attribute sort
  takes any total preorder on names as a parameter (`before`). The default `toSorted()` in
  `normalizeStyle` is modelled exactly, as code-unit order.
- AttributeSorter.Element.SetAttribute: does not model the lower-casing of the name that
  `setAttribute` performs on an HTML element. The trees the helper sorts come from the HTML
  parser (`innerHTML`, lines 68-71), which stores attribute names in lower case, so the
  lower-casing changes nothing for them.
- AttributeSorter.Element.SetAttribute: has no error path. Under the DOM's name check,
  `setAttribute` throws an `InvalidCharacterError` for a name that is not an XML name, such as
  `@click` or `1a`, which the HTML parser accepts from markup. `sortAttributes` would then stop
  with the element's attribute list already emptied by the removal loop and only partly
  re-filled, and the exception would propagate. The model always re-adds every attribute and
  ends with the sorted list.
- AttributeSorter.Element.RemoveAttribute: does not model the lower-casing of the name or
  attribute namespaces, for the same reason.
- AttributeSorter.Element.RemoveAllAttributes: always ends. In a browser it need not. An
  attribute stored with upper-case letters, as `setAttributeNS(null, "dataFoo", …)` can store
  it on an HTML element, is never found by `removeAttribute`, which lower-cases its argument.
  The `while` loop at lines 28-30 then never ends. The model assumes the parser's lower-case
  names and does not capture this non-termination.
- AttributeSorter.SortAttributes: requires distinct attribute names on every element of the
  tree. The DOM does not guarantee this in general: `setAttributeNS` can give an element two
  attributes with the same qualified name in different namespaces. For such an element the
  source still ends, and re-adding with `setAttribute` merges the two into one attribute. The
  model does not express that merge. The helper only sorts trees that `toEqualHTML` has just
  parsed with `innerHTML` (lines 66-71), and the HTML parser drops duplicate attributes.
- AttributeSorter.SortAttributes: requires that the tree is a tree (`Element.Valid`). The DOM
  guarantees this.
- The child list is a constant of `Element`, so tree shape is outside the frame. Nothing in
  the helper changes it, so the model does not express a live `NodeList` that changes during
  the walk.
- Building elements and parsing markup into them is not part of this model. Elements are
  taken as given.
- Text and comment nodes, and elements outside the HTML namespace such as SVG, are one
  constructor, `Node.Other`, that the walk skips. The model does not express
  `instanceof HTMLElement` otherwise.
