/**
 * `sortAttributes`: rewrites, in place, the attribute list of an element and
 * of every HTML element below it so that attributes appear in name order.
 * Serialised markup then no longer depends on the order in which attributes
 * were set.
 *
 * The DOM is modelled by a class `Element` whose attribute list and child
 * list are fields. Attribute order is insertion order, `removeAttribute`
 * deletes by name and `setAttribute` appends a new name. The
 * locale-dependent name comparison (`localeCompare`) is a parameter: any
 * total preorder on names.
 */
module AttributeSorter {
  import opened JsArray
  import opened JsText

  /** One attribute of an element: its qualified name and its value. */
  datatype Attribute = Attribute(name: JsString, value: JsString)

  /**
   * A child node. `Html` is a child that is an `HTMLElement`; `Other` is any
   * other node (text, comment, or an element outside the HTML namespace such
   * as SVG), which the walk does not enter.
   */
  datatype Node = Html(element: Element) | Other

  /** An element never holds two attributes with the same name. */
  predicate NamesUnique(attrs: seq<Attribute>) {
    forall i, j :: 0 <= i < j < |attrs| ==> attrs[i].name != attrs[j].name
  }

  predicate HasName(attrs: seq<Attribute>, name: JsString) {
    exists i :: 0 <= i < |attrs| && attrs[i].name == name
  }

  function NameIsNot(name: JsString): Attribute -> bool {
    (a: Attribute) => a.name != name
  }

  /** `attrs[k]` is the first attribute called `name`. */
  predicate FirstNamed(attrs: seq<Attribute>, name: JsString, k: int) {
    0 <= k < |attrs| && attrs[k].name == name && forall j :: 0 <= j < k ==> attrs[j].name != name
  }

  /**
   * The attribute list after `setAttribute(name, value)`: the first
   * attribute called `name` takes the new value in place and every other
   * entry stays, or a new attribute is appended when there is none.
   */
  function WithAttribute(attrs: seq<Attribute>, name: JsString, value: JsString): (r: seq<Attribute>)
    ensures !HasName(attrs, name) ==> r == attrs + [Attribute(name, value)]
    ensures HasName(attrs, name) ==>
              exists k :: FirstNamed(attrs, name, k) && r == attrs[k := Attribute(name, value)]
  {
    if attrs == [] then [Attribute(name, value)]
    else if attrs[0].name == name then
      assert FirstNamed(attrs, name, 0);
      [Attribute(name, value)] + attrs[1..]
    else
      var rest := WithAttribute(attrs[1..], name, value);
      assert !HasName(attrs, name) ==> !HasName(attrs[1..], name);
      assert HasName(attrs, name) ==>
               exists k :: FirstNamed(attrs, name, k) && [attrs[0]] + rest == attrs[k := Attribute(name, value)] by {
        if HasName(attrs, name) {
          assert HasName(attrs[1..], name);
          var k :| FirstNamed(attrs[1..], name, k) && rest == attrs[1..][k := Attribute(name, value)];
          FirstNamedShift(attrs, name, k, Attribute(name, value), rest);
        }
      }
      [attrs[0]] + rest
  }

  /** A first match in the tail is a first match one place later in the whole list. */
  lemma FirstNamedShift(attrs: seq<Attribute>, name: JsString, k: int, a: Attribute, rest: seq<Attribute>)
    requires attrs != [] && attrs[0].name != name
    requires FirstNamed(attrs[1..], name, k) && rest == attrs[1..][k := a]
    ensures FirstNamed(attrs, name, k + 1) && [attrs[0]] + rest == attrs[k + 1 := a]
  {
    forall j | 0 <= j < k + 1 ensures attrs[j].name != name {
      if j > 0 {
        assert attrs[j] == attrs[1..][j - 1];
      }
    }
  }

  /**
   * The comparator `(a, b) => a.name.localeCompare(b.name)`, read as "`a`
   * may come before `b`": it looks at the names only, never at the values.
   */
  function ByName(before: (JsString, JsString) -> bool): (r: (Attribute, Attribute) -> bool)
    ensures forall a: Attribute, b: Attribute, c: Attribute, d: Attribute :: a.name == c.name && b.name == d.name ==> r(a, b) == r(c, d)
  {
    (a: Attribute, b: Attribute) => before(a.name, b.name)
  }

  class Element {
    var attributes: seq<Attribute>
    /** The child list; nothing here changes the shape of the tree, so it is a constant. */
    const childNodes: seq<Node>
    /** This element and every HTML element below it. */
    ghost const Repr: set<Element>

    /**
     * The element is the root of a tree of HTML elements: every HTML child
     * is valid, owns a part of `Repr` that excludes this element, the parts
     * of different children are disjoint, and `Repr` holds nothing else.
     * The shape of the tree does not depend on any attribute list.
     */
    ghost predicate Valid()
      decreases Repr
    {
      && this in Repr
      && (forall i :: 0 <= i < |childNodes| && childNodes[i].Html? ==>
            && childNodes[i].element in Repr
            && childNodes[i].element.Repr <= Repr
            && this !in childNodes[i].element.Repr
            && childNodes[i].element.Valid())
      && (forall i, j :: 0 <= i < j < |childNodes| && childNodes[i].Html? && childNodes[j].Html? ==>
            childNodes[i].element.Repr !! childNodes[j].element.Repr)
      && (forall x :: x in Repr ==> x == this || exists i :: 0 <= i < |childNodes| && InChild(x, i))
    }

    /** No element of the tree holds two attributes with the same name. */
    ghost predicate NamesUniqueBelow()
      reads Repr`attributes
    {
      forall x :: x in Repr ==> NamesUnique(x.attributes)
    }

    /** `x` belongs to the subtree of the `i`-th child, which is an HTML element. */
    ghost predicate InChild(x: Element, i: int)
      requires 0 <= i < |childNodes|
    {
      childNodes[i].Html? && x in childNodes[i].element.Repr
    }

    /** What validity says about the `i`-th child. */
    lemma ChildValid(i: int)
      requires Valid() && 0 <= i < |childNodes| && childNodes[i].Html?
      ensures childNodes[i].element.Valid()
      ensures childNodes[i].element.Repr <= Repr - {this}
    {
    }

    /** The part of `Repr` the `i`-th child owns: its subtree if it is an HTML element, else nothing. */
    ghost function ChildPart(i: int): set<Element>
      requires 0 <= i < |childNodes|
    {
      if childNodes[i].Html? then childNodes[i].element.Repr else {}
    }

    /** `parts` lists, child by child, the part of `Repr` each child owns. */
    ghost predicate IsParts(parts: seq<set<Element>>) {
      && |parts| == |childNodes|
      && forall j :: 0 <= j < |childNodes| ==> parts[j] == ChildPart(j)
    }

    lemma PartsWithin(parts: seq<set<Element>>)
      requires Valid() && IsParts(parts)
      ensures forall j :: 0 <= j < |parts| ==> parts[j] <= Repr - {this}
    {
      forall j | 0 <= j < |parts| ensures parts[j] <= Repr - {this} {
        if childNodes[j].Html? {
          ChildValid(j);
        }
      }
    }

    lemma PartsDisjoint(parts: seq<set<Element>>)
      requires Valid() && IsParts(parts)
      ensures forall j, k :: 0 <= j < k < |parts| ==> parts[j] !! parts[k]
    {
    }

    lemma PartsCover(parts: seq<set<Element>>)
      requires Valid() && IsParts(parts)
      ensures Repr - {this} <= Below(parts, 0)
    {
      forall x | x in Repr - {this} ensures x in Below(parts, 0) {
        var j :| 0 <= j < |childNodes| && InChild(x, j);
        BelowHas(parts, 0, j, x);
      }
    }

    /**
     * What validity says about the whole tree, as values: the parts the
     * children own are disjoint and, with this element, make up `Repr`.
     */
    lemma ChildParts() returns (parts: seq<set<Element>>)
      requires Valid()
      ensures |parts| == |childNodes|
      ensures forall j :: 0 <= j < |childNodes| ==> parts[j] == ChildPart(j)
      ensures forall j, k :: 0 <= j < k < |parts| ==> parts[j] !! parts[k]
      ensures Below(parts, 0) == Repr - {this}
    {
      parts := seq(|childNodes|, j requires 0 <= j < |childNodes| => ChildPart(j));
      assert IsParts(parts);
      PartsDisjoint(parts);
      PartsWithin(parts);
      BelowWithin(parts, 0, Repr - {this});
      PartsCover(parts);
    }

    /**
     * `while (element.attributes.length > 0) element.removeAttribute(element.attributes[0].name)`:
     * with distinct names, each call removes exactly the first attribute.
     */
    method RemoveAllAttributes()
      requires NamesUnique(attributes)
      modifies this`attributes
      ensures attributes == []
    {
      ghost var original := attributes;
      ghost var removed := 0;
      while |attributes| > 0
        invariant removed <= |original| && attributes == original[removed..]
        decreases |attributes|
      {
        RemoveFirst(attributes);
        RemoveAttribute(attributes[0].name);
        removed := removed + 1;
      }
    }

    /**
     * `for (const attr of attrs) element.setAttribute(attr.name, attr.value)`
     * on an element without attributes: with distinct names every call
     * appends, so the list becomes `attrs`, in that order.
     */
    method SetAllAttributes(attrs: seq<Attribute>)
      requires attributes == [] && NamesUnique(attrs)
      modifies this`attributes
      ensures attributes == attrs
    {
      for i := 0 to |attrs|
        invariant attributes == attrs[..i]
      {
        assert !HasName(attrs[..i], attrs[i].name);
        SetAttribute(attrs[i].name, attrs[i].value);
        assert attrs[..i + 1] == attrs[..i] + [attrs[i]];
      }
      assert attrs[..|attrs|] == attrs;
    }

    /** `removeAttribute(name)`: deletes the attribute called `name`, if there is one. */
    method RemoveAttribute(name: JsString)
      modifies this`attributes
      ensures attributes == Filter(NameIsNot(name), old(attributes))
    {
      attributes := Filter(NameIsNot(name), attributes);
    }

    /** `setAttribute(name, value)` */
    method SetAttribute(name: JsString, value: JsString)
      modifies this`attributes
      ensures attributes == WithAttribute(old(attributes), name, value)
    {
      attributes := WithAttribute(attributes, name, value);
    }
  }

  /**
   * What `removeAttribute(name)` leaves: no attribute called `name`, and
   * every attribute with another name as often as before.
   */
  lemma RemovedByName(attrs: seq<Attribute>, name: JsString)
    ensures !HasName(Filter(NameIsNot(name), attrs), name)
    ensures forall a: Attribute :: a.name != name ==> multiset(Filter(NameIsNot(name), attrs))[a] == multiset(attrs)[a]
  {
    var p := NameIsNot(name);
    var r := Filter(p, attrs);
    forall i | 0 <= i < |r| ensures r[i].name != name {
      assert r[i] in r;
    }
    FilterMultiset(p, attrs);
    forall a: Attribute | a.name != name ensures multiset(r)[a] == multiset(attrs)[a] {
      assert p(a);
    }
  }

  /** Removing the first attribute by its name removes exactly that attribute. */
  lemma RemoveFirst(attrs: seq<Attribute>)
    requires attrs != [] && NamesUnique(attrs)
    ensures Filter(NameIsNot(attrs[0].name), attrs) == attrs[1..]
  {
    var p := NameIsNot(attrs[0].name);
    assert forall i :: 0 <= i < |attrs[1..]| ==> p(attrs[1..][i]);
    assert attrs == [attrs[0]] + attrs[1..];
    FilterAppend(p, [attrs[0]], attrs[1..]);
  }

  lemma {:induction false} InsertNamesUnique(x: Attribute, s: seq<Attribute>, le: (Attribute, Attribute) -> bool)
    requires NamesUnique(s) && !HasName(s, x.name)
    ensures NamesUnique(Insert(x, s, le))
    decreases |s|
  {
    if s != [] && !le(x, s[0]) {
      assert !HasName(s[1..], x.name);
      InsertNamesUnique(x, s[1..], le);
      var tail := Insert(x, s[1..], le);
      forall k | 0 <= k < |tail| ensures tail[k].name != s[0].name {
        assert tail[k] in multiset(s[1..]) + multiset{x};
        if tail[k] != x {
          var j :| 0 <= j < |s[1..]| && s[1..][j] == tail[k];
          assert s[j + 1] == tail[k];
        }
      }
    }
  }

  /** Sorting keeps attribute names distinct. */
  lemma {:induction false} ToSortedNamesUnique(attrs: seq<Attribute>, le: (Attribute, Attribute) -> bool)
    requires NamesUnique(attrs)
    ensures NamesUnique(ToSorted(attrs, le))
    decreases |attrs|
  {
    if attrs != [] {
      ToSortedNamesUnique(attrs[1..], le);
      var sorted := ToSorted(attrs[1..], le);
      forall i | 0 <= i < |sorted| ensures sorted[i].name != attrs[0].name {
        assert sorted[i] in multiset(attrs[1..]);
      }
      InsertNamesUnique(attrs[0], sorted, le);
    }
  }

  lemma ByNamePreorder(before: (JsString, JsString) -> bool)
    requires TotalPreorder(before)
    ensures TotalPreorder(ByName(before))
  {
    var le := ByName(before);
    forall a, b ensures le(a, b) || le(b, a) {
      assert before(a.name, b.name) || before(b.name, a.name);
    }
    forall a, b, c | le(a, b) && le(b, c) ensures le(a, c) {
      assert before(a.name, b.name) && before(b.name, c.name);
    }
  }

  /**
   * What one element's new attribute list is: a permutation of the old one
   * (names and values kept together), ordered by name, with distinct names,
   * and with attributes whose names compare equal left in their old order.
   */
  lemma SortedAttributesSpec(attrs: seq<Attribute>, before: (JsString, JsString) -> bool, k: Attribute)
    requires NamesUnique(attrs) && TotalPreorder(before)
    ensures var r := ToSorted(attrs, ByName(before));
      && multiset(r) == multiset(attrs)
      && Sorted(r, ByName(before))
      && NamesUnique(r)
      && Filter(TiedWith(ByName(before), k), r) == Filter(TiedWith(ByName(before), k), attrs)
  {
    ByNamePreorder(before);
    ToSortedSorted(attrs, ByName(before));
    ToSortedNamesUnique(attrs, ByName(before));
    ToSortedStable(attrs, ByName(before), k);
  }

  /**
   * `sortAttributes(element)`: empties the attribute list one
   * `removeAttribute` at a time, re-adds the sorted attributes with
   * `setAttribute`, then recurses into every HTML child in order. Every
   * element of the tree ends with its old attributes sorted by name; the
   * tree itself (children, their order, non-HTML nodes) is untouched, since
   * only attribute lists are in the frame.
   */
  method SortAttributes(element: Element, before: (JsString, JsString) -> bool)
    requires element.Valid() && element.NamesUniqueBelow()
    modifies element.Repr`attributes
    ensures element.NamesUniqueBelow()
    ensures forall x :: x in element.Repr ==> x.attributes == ToSorted(old(x.attributes), ByName(before))
    decreases element.Repr, 2
  {
    var attributes := element.attributes;
    var sortedAttributes := ToSorted(attributes, ByName(before));
    ToSortedNamesUnique(attributes, ByName(before));
    element.RemoveAllAttributes();
    element.SetAllAttributes(sortedAttributes);
    SortChildren(element, before);
    forall x | x in element.Repr ensures NamesUnique(x.attributes) {
      ToSortedNamesUnique(old(x.attributes), ByName(before));
    }
  }

  /** The elements owned by the children from the `i`-th on. */
  ghost function Below(parts: seq<set<Element>>, i: nat): set<Element>
    decreases |parts| - i
  {
    if i >= |parts| then {} else parts[i] + Below(parts, i + 1)
  }

  /** Pairwise disjoint parts: each part is disjoint from all later ones. */
  lemma {:induction false} BelowDisjoint(parts: seq<set<Element>>, i: nat, k: nat)
    requires forall j, m :: 0 <= j < m < |parts| ==> parts[j] !! parts[m]
    requires i < k
    ensures i < |parts| ==> parts[i] !! Below(parts, k)
    decreases |parts| - k
  {
    if k < |parts| {
      assert parts[i] !! parts[k];
      BelowDisjoint(parts, i, k + 1);
    }
  }

  lemma {:induction false} BelowWithin(parts: seq<set<Element>>, i: nat, s: set<Element>)
    requires forall j :: 0 <= j < |parts| ==> parts[j] <= s
    ensures Below(parts, i) <= s
    decreases |parts| - i
  {
    if i < |parts| {
      BelowWithin(parts, i + 1, s);
    }
  }

  lemma {:induction false} BelowHas(parts: seq<set<Element>>, i: nat, j: nat, x: Element)
    requires i <= j < |parts| && x in parts[j]
    ensures x in Below(parts, i)
    decreases j - i
  {
    if i < j {
      BelowHas(parts, i + 1, j, x);
    }
  }

  /**
   * The `forEach` callback of `sortAttributes` applied to the `i`-th child:
   * an HTML child has its whole subtree sorted, any other node is skipped.
   * `target` holds, for every element of that subtree, its attribute list
   * sorted by name.
   */
  method VisitChild(element: Element, before: (JsString, JsString) -> bool, ghost part: set<Element>,
                    ghost target: map<Element, seq<Attribute>>, i: int)
    requires element.Valid() && 0 <= i < |element.childNodes| && part == element.ChildPart(i)
    requires forall x :: x in part ==>
               && x in target && NamesUnique(x.attributes)
               && target[x] == ToSorted(x.attributes, ByName(before))
    modifies part`attributes
    ensures forall x :: x in part ==> x.attributes == target[x]
    decreases element.Repr, 0
  {
    if element.childNodes[i].Html? {
      var child := element.childNodes[i].element;
      element.ChildValid(i);
      SortAttributes(child, before);
    }
  }

  /**
   * `element.childNodes.forEach(...)`: every element strictly below
   * `element` ends with its old attributes sorted by name; `element`'s own
   * attributes are not touched.
   */
  method SortChildren(element: Element, before: (JsString, JsString) -> bool)
    requires element.Valid()
    requires forall x :: x in element.Repr - {element} ==> NamesUnique(x.attributes)
    modifies (element.Repr - {element})`attributes
    ensures forall x :: x in element.Repr - {element} ==>
              x.attributes == ToSorted(old(x.attributes), ByName(before))
    decreases element.Repr, 1
  {
    ghost var parts := element.ChildParts();
    ghost var was := map x | x in element.Repr - {element} :: x.attributes;
    ghost var target := map x | x in was :: ToSorted(was[x], ByName(before));
    for i := 0 to |element.childNodes|
      invariant forall x :: x in Below(parts, i) ==> x in was && x.attributes == was[x]
      invariant forall x :: x in was && x !in Below(parts, i) ==> x.attributes == target[x]
    {
      assert Below(parts, i) == parts[i] + Below(parts, i + 1);
      BelowDisjoint(parts, i, i + 1);
      VisitChild(element, before, parts[i], target, i);
    }
    assert Below(parts, |parts|) == {};
  }
}
