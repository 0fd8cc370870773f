/**
 * The component encapsulation hierarchy that the CellML parser builds from
 * <group> elements (parser.py, __add_relationships and __handle_component_ref),
 * stated as functions on the component records, with the relations the walk
 * records and the properties it guarantees.
 */
module Hierarchy {
  import opened Wrappers
  import opened Xml
  import opened ModelTypes

  const ComponentRefTag := WithNs(Cellml, "component_ref")
  const RelationshipRefTag := WithNs(Cellml, "relationship_ref")

  /** The component a <component_ref> names (attrib.get('component')). */
  function ChildName(r: Element): Option<string> {
    Attr(r, "component")
  }

  /** The names of the given refs, in order: the `siblings` list of __handle_component_ref. */
  function ChildNames(refs: seq<Element>): (r: seq<Option<string>>)
    ensures |r| == |refs|
    ensures forall k :: 0 <= k < |refs| ==> r[k] == ChildName(refs[k])
  {
    if refs == [] then [] else ChildNames(refs[..|refs| - 1]) + [ChildName(refs[|refs| - 1])]
  }

  /**
   * Every lookup the walk makes in the component map succeeds: below a
   * named (truthy) parent, the parent and each child name a known component.
   * The source raises KeyError otherwise.
   */
  ghost predicate WellReferenced(tag: Element, parent: Option<string>, names: set<string>)
    decreases tag
  {
    forall r :: r in tag.children && r.tag == ComponentRefTag ==>
      && (Truthy(parent) ==> parent.value in names && ChildName(r).Some? && ChildName(r).value in names)
      && WellReferenced(r, ChildName(r), names)
  }

  /** Below a named parent: parent.add_encapsulated(child); child.set_parent(parent). */
  function Link(comps: Components, parent: Option<string>, child: Option<string>): (r: Components)
    requires Truthy(parent) ==> parent.value in comps && child.Some? && child.value in comps
    ensures r.Keys == comps.Keys
  {
    if Truthy(parent) then
      var p := comps[parent.value];
      var withChild := comps[parent.value := p.(encapsulated := p.encapsulated + {child.value})];
      withChild[child.value := withChild[child.value].(parent := parent)]
    else comps
  }

  /** Component `a` records every other entry of `others` as a sibling, in order. */
  function RegisterSibling(comps: Components, a: Option<string>, others: seq<Option<string>>): (r: Components)
    requires a.Some? && a.value in comps
    requires forall s :: s in others ==> s.Some?
    ensures r.Keys == comps.Keys
    decreases |others|
  {
    if others == [] then comps
    else
      var before := RegisterSibling(comps, a, others[..|others| - 1]);
      var b := others[|others| - 1];
      if a != b then before[a.value := before[a.value].(siblings := before[a.value].siblings + {b.value})]
      else before
  }

  /** The loop over itertools.product(siblings, siblings), for the first `firsts` of them. */
  function RegisterSiblings(comps: Components, siblings: seq<Option<string>>, firsts: seq<Option<string>>): (r: Components)
    requires forall s :: s in siblings ==> s.Some? && s.value in comps
    requires forall a :: a in firsts ==> a in siblings
    ensures r.Keys == comps.Keys
    decreases |firsts|
  {
    if firsts == [] then comps
    else RegisterSibling(RegisterSiblings(comps, siblings, firsts[..|firsts| - 1]), firsts[|firsts| - 1], siblings)
  }

  /** __handle_component_ref(tag, parent) applied to the component map. */
  function HandleRef(tag: Element, parent: Option<string>, comps: Components): (r: Components)
    requires WellReferenced(tag, parent, comps.Keys)
    ensures r.Keys == comps.Keys
    decreases tag, 1, 0
  {
    var refs := FindAll(tag, ComponentRefTag);
    var linked := HandleRefs(tag, refs, parent, comps);
    var siblings := ChildNames(refs);
    if Truthy(parent) && |siblings| > 1 then RegisterSiblings(linked, siblings, siblings)
    else linked
  }

  /** The loop of __handle_component_ref over the given <component_ref> children of `tag`. */
  function HandleRefs(tag: Element, refs: seq<Element>, parent: Option<string>, comps: Components): (r: Components)
    requires forall x :: x in refs ==> x in tag.children && x.tag == ComponentRefTag
    requires WellReferenced(tag, parent, comps.Keys)
    ensures r.Keys == comps.Keys
    decreases tag, 0, |refs|
  {
    if refs == [] then comps
    else
      var before := HandleRefs(tag, refs[..|refs| - 1], parent, comps);
      var last := refs[|refs| - 1];
      HandleRef(last, ChildName(last), Link(before, parent, ChildName(last)))
  }

  // ---------------------------------------------------------------------------
  // The relations the walk records

  type Pairs = set<(string, string)>

  /** The names `a` is related to. */
  ghost function Image(pairs: Pairs, a: string): set<string> {
    set p | p in pairs && p.0 == a :: p.1
  }

  /** The names related to `b`. */
  ghost function Preimage(pairs: Pairs, b: string): set<string> {
    set p | p in pairs && p.1 == b :: p.0
  }

  /** The encapsulation edge a <component_ref> adds below a named parent. */
  function LinkEdge(parent: Option<string>, child: Option<string>): Pairs {
    if Truthy(parent) && child.Some? then {(parent.value, child.value)} else {}
  }

  /** Every (parent, child) pair of a <component_ref> directly inside a named one. */
  ghost function Edges(tag: Element, parent: Option<string>): Pairs
    decreases tag, 1, 0
  {
    EdgesOf(tag, FindAll(tag, ComponentRefTag), parent)
  }

  ghost function EdgesOf(tag: Element, refs: seq<Element>, parent: Option<string>): Pairs
    requires forall x :: x in refs ==> x in tag.children
    decreases tag, 0, |refs|
  {
    if refs == [] then {}
    else
      var last := refs[|refs| - 1];
      assert last in refs;
      assert last in tag.children;
      EdgesOf(tag, refs[..|refs| - 1], parent) + LinkEdge(parent, ChildName(last)) + Edges(last, ChildName(last))
  }

  /** Ordered pairs of distinct names, the first from `firsts`, the second from `others`. */
  ghost function PairsOf(firsts: seq<Option<string>>, others: seq<Option<string>>): Pairs
    decreases |firsts|
  {
    if firsts == [] then {}
    else PairsOf(firsts[..|firsts| - 1], others) + PairsWith(firsts[|firsts| - 1], others)
  }

  ghost function PairsWith(a: Option<string>, others: seq<Option<string>>): Pairs
    decreases |others|
  {
    if others == [] then {}
    else
      var b := others[|others| - 1];
      PairsWith(a, others[..|others| - 1]) + (if a.Some? && b.Some? && a != b then {(a.value, b.value)} else {})
  }

  lemma {:induction false} PairsWithMember(a: Option<string>, others: seq<Option<string>>, x: string, y: string)
    ensures (x, y) in PairsWith(a, others) <==> a == Some(x) && Some(y) in others && x != y
    decreases |others|
  {
    if others != [] {
      var init := others[..|others| - 1];
      PairsWithMember(a, init, x, y);
      assert others == init + [others[|others| - 1]];
    }
  }

  /** (x, y) is a pair of PairsOf exactly when x is among the firsts, y among the others, and x != y. */
  lemma {:induction false} PairsOfMember(firsts: seq<Option<string>>, others: seq<Option<string>>, x: string, y: string)
    ensures (x, y) in PairsOf(firsts, others) <==> Some(x) in firsts && Some(y) in others && x != y
    decreases |firsts|
  {
    if firsts != [] {
      var init := firsts[..|firsts| - 1];
      PairsOfMember(init, others, x, y);
      PairsWithMember(firsts[|firsts| - 1], others, x, y);
      assert firsts == init + [firsts[|firsts| - 1]];
    }
  }

  /** Every pair of distinct children of one named parent with more than one child. */
  ghost function SiblingPairs(tag: Element, parent: Option<string>): Pairs
    decreases tag, 1, 0
  {
    var refs := FindAll(tag, ComponentRefTag);
    var here := if Truthy(parent) && |refs| > 1 then PairsOf(ChildNames(refs), ChildNames(refs)) else {};
    here + SiblingPairsOf(tag, refs)
  }

  ghost function SiblingPairsOf(tag: Element, refs: seq<Element>): Pairs
    requires forall x :: x in refs ==> x in tag.children
    decreases tag, 0, |refs|
  {
    if refs == [] then {}
    else
      var last := refs[|refs| - 1];
      assert last in refs;
      assert last in tag.children;
      SiblingPairsOf(tag, refs[..|refs| - 1]) + SiblingPairs(last, ChildName(last))
  }

  /** The parent after a walk: unchanged when no edge enters, else one of the entering edges' parents. */
  ghost predicate ParentAfter(before: Option<string>, after: Option<string>, parents: set<string>) {
    if parents == {} then after == before else after.Some? && after.value in parents
  }

  /**
   * `r` is `comps` with the encapsulation edges `edges` and the sibling pairs
   * `sibs` recorded, and nothing else changed.
   */
  ghost predicate Effect(comps: Components, r: Components, edges: Pairs, sibs: Pairs) {
    && r.Keys == comps.Keys
    && forall n :: n in comps ==> EffectAt(comps[n], r[n], edges, sibs, n)
  }

  /** The record of component `n` after recording `edges` and `sibs`. */
  ghost predicate EffectAt(before: ComponentRecord, after: ComponentRecord, edges: Pairs, sibs: Pairs, n: string) {
    && after.variables == before.variables
    && after.encapsulated == before.encapsulated + Image(edges, n)
    && after.siblings == before.siblings + Image(sibs, n)
    && ParentAfter(before.parent, after.parent, Preimage(edges, n))
  }

  lemma ImageUnion(a: Pairs, b: Pairs, n: string)
    ensures Image(a + b, n) == Image(a, n) + Image(b, n)
    ensures Preimage(a + b, n) == Preimage(a, n) + Preimage(b, n)
  {
  }

  lemma EffectNone(comps: Components)
    ensures Effect(comps, comps, {}, {})
  {
    forall n | n in comps
      ensures Image({}, n) == {} && Preimage({}, n) == {}
    {
    }
  }

  /** Two walks in a row record the union of what each records; the later parent wins. */
  lemma EffectCompose(c0: Components, c1: Components, c2: Components, e1: Pairs, s1: Pairs, e2: Pairs, s2: Pairs)
    requires Effect(c0, c1, e1, s1) && Effect(c1, c2, e2, s2)
    ensures Effect(c0, c2, e1 + e2, s1 + s2)
  {
    forall n | n in c0
      ensures EffectAt(c0[n], c2[n], e1 + e2, s1 + s2, n)
    {
      assert EffectAt(c0[n], c1[n], e1, s1, n);
      assert EffectAt(c1[n], c2[n], e2, s2, n);
      ImageUnion(e1, e2, n);
      ImageUnion(s1, s2, n);
    }
  }

  /** Two steps that only add sibling pairs add the union of their pairs. */
  lemma SiblingsCompose(c0: Components, c1: Components, c2: Components, s1: Pairs, s2: Pairs)
    requires Effect(c0, c1, {}, s1) && Effect(c1, c2, {}, s2)
    ensures Effect(c0, c2, {}, s1 + s2)
  {
    EffectCompose(c0, c1, c2, {}, s1, {}, s2);
    var none: Pairs := {};
    assert none + none == none;
  }

  /** A walk followed by a sibling phase that only adds sibling pairs. */
  lemma EffectThenSiblings(c0: Components, c1: Components, c2: Components, e1: Pairs, s1: Pairs, s2: Pairs)
    requires Effect(c0, c1, e1, s1) && Effect(c1, c2, {}, s2)
    ensures Effect(c0, c2, e1, s2 + s1)
  {
    EffectCompose(c0, c1, c2, e1, s1, {}, s2);
    assert e1 + {} == e1 && s1 + s2 == s2 + s1;
  }

  /** A walk over earlier refs, then the link of one more ref, then the walk below it. */
  lemma ThreeSteps(c0: Components, c1: Components, c2: Components, c3: Components,
                   e1: Pairs, s1: Pairs, link: Pairs, e3: Pairs, s3: Pairs)
    requires Effect(c0, c1, e1, s1) && Effect(c1, c2, link, {}) && Effect(c2, c3, e3, s3)
    ensures Effect(c0, c3, e1 + link + e3, s1 + s3)
  {
    EffectCompose(c0, c1, c2, e1, s1, link, {});
    assert s1 + {} == s1;
    EffectCompose(c0, c2, c3, e1 + link, s1, e3, s3);
  }

  lemma LinkEffect(comps: Components, parent: Option<string>, child: Option<string>)
    requires Truthy(parent) ==> parent.value in comps && child.Some? && child.value in comps
    ensures Effect(comps, Link(comps, parent, child), LinkEdge(parent, child), {})
  {
    if Truthy(parent) {
      forall n | n in comps
        ensures EffectAt(comps[n], Link(comps, parent, child)[n], LinkEdge(parent, child), {}, n)
      {
        LinkEffectAt(comps, parent.value, child.value, n);
      }
    } else {
      EffectNone(comps);
    }
  }

  /** Linking `child` below `parent` changes component `n` by the one new edge alone. */
  lemma LinkEffectAt(comps: Components, parent: string, child: string, n: string)
    requires Truthy(Some(parent)) && parent in comps && child in comps && n in comps
    ensures EffectAt(comps[n], Link(comps, Some(parent), Some(child))[n], {(parent, child)}, {}, n)
  {
    var e := {(parent, child)};
    var empty: Pairs := {};
    var r := Link(comps, Some(parent), Some(child));
    assert Image(e, n) == if n == parent then {child} else {};
    assert Preimage(e, n) == if n == child then {parent} else {};
    assert Image(empty, n) == {};
  }

  lemma AddSiblingEffect(comps: Components, a: string, b: string)
    requires a in comps
    ensures Effect(comps, comps[a := comps[a].(siblings := comps[a].siblings + {b})], {}, {(a, b)})
  {
    var r := comps[a := comps[a].(siblings := comps[a].siblings + {b})];
    forall n | n in comps
      ensures EffectAt(comps[n], r[n], {}, {(a, b)}, n)
    {
      assert Image({(a, b)}, n) == if n == a then {b} else {};
      assert Image({}, n) == {} && Preimage({}, n) == {};
    }
  }

  lemma {:induction false} RegisterSiblingEffect(comps: Components, a: Option<string>, others: seq<Option<string>>)
    requires a.Some? && a.value in comps
    requires forall s :: s in others ==> s.Some?
    ensures Effect(comps, RegisterSibling(comps, a, others), {}, PairsWith(a, others))
    decreases |others|
  {
    if others == [] {
      EffectNone(comps);
    } else {
      var init := others[..|others| - 1];
      var b := others[|others| - 1];
      RegisterSiblingEffect(comps, a, init);
      var before := RegisterSibling(comps, a, init);
      var step := if a != b then {(a.value, b.value)} else {};
      var r := RegisterSibling(comps, a, others);
      if a != b {
        AddSiblingEffect(before, a.value, b.value);
      } else {
        EffectNone(before);
      }
      SiblingsCompose(comps, before, r, PairsWith(a, init), step);
    }
  }

  lemma {:induction false} RegisterSiblingsEffect(comps: Components, siblings: seq<Option<string>>, firsts: seq<Option<string>>)
    requires forall s :: s in siblings ==> s.Some? && s.value in comps
    requires forall a :: a in firsts ==> a in siblings
    ensures Effect(comps, RegisterSiblings(comps, siblings, firsts), {}, PairsOf(firsts, siblings))
    decreases |firsts|
  {
    if firsts == [] {
      EffectNone(comps);
    } else {
      var init := firsts[..|firsts| - 1];
      var a := firsts[|firsts| - 1];
      RegisterSiblingsEffect(comps, siblings, init);
      var before := RegisterSiblings(comps, siblings, init);
      RegisterSiblingEffect(before, a, siblings);
      assert RegisterSiblings(comps, siblings, firsts) == RegisterSibling(before, a, siblings);
      SiblingsCompose(comps, before, RegisterSiblings(comps, siblings, firsts), PairsOf(init, siblings), PairsWith(a, siblings));
    }
  }

  /**
   * What __handle_component_ref records: exactly the edges and sibling pairs of
   * the tree below `tag`, with nothing else of any component changed.
   */
  lemma {:induction false} HandleRefEffect(tag: Element, parent: Option<string>, comps: Components)
    requires WellReferenced(tag, parent, comps.Keys)
    ensures Effect(comps, HandleRef(tag, parent, comps), Edges(tag, parent), SiblingPairs(tag, parent))
    decreases tag, 1, 0
  {
    var refs := FindAll(tag, ComponentRefTag);
    var linked := HandleRefs(tag, refs, parent, comps);
    var siblings := ChildNames(refs);
    if Truthy(parent) {
      SiblingsKnown(tag, parent, linked.Keys);
    }
    var here := if Truthy(parent) && |siblings| > 1 then PairsOf(siblings, siblings) else {};
    var r := if Truthy(parent) && |siblings| > 1 then RegisterSiblings(linked, siblings, siblings) else linked;
    HandleRefsEffect(tag, refs, parent, comps);
    SiblingPhaseEffect(tag, parent, linked);
    EffectThenSiblings(comps, linked, r, EdgesOf(tag, refs, parent), SiblingPairsOf(tag, refs), here);
    HandleRefShape(tag, parent, comps);
  }

  /** HandleRef, Edges and SiblingPairs unfolded one level. */
  lemma HandleRefShape(tag: Element, parent: Option<string>, comps: Components)
    requires WellReferenced(tag, parent, comps.Keys)
    ensures var refs := FindAll(tag, ComponentRefTag);
      var linked := HandleRefs(tag, refs, parent, comps);
      var siblings := ChildNames(refs);
      && HandleRef(tag, parent, comps) == (if Truthy(parent) && |siblings| > 1 then RegisterSiblings(linked, siblings, siblings) else linked)
      && Edges(tag, parent) == EdgesOf(tag, refs, parent)
      && SiblingPairs(tag, parent) == (if Truthy(parent) && |siblings| > 1 then PairsOf(siblings, siblings) else {}) + SiblingPairsOf(tag, refs)
  {
  }

  /** The closing loop of __handle_component_ref records the sibling pairs of this level. */
  lemma SiblingPhaseEffect(tag: Element, parent: Option<string>, linked: Components)
    requires WellReferenced(tag, parent, linked.Keys)
    requires Truthy(parent) ==> forall s :: s in ChildNames(FindAll(tag, ComponentRefTag)) ==> s.Some? && s.value in linked
    ensures var siblings := ChildNames(FindAll(tag, ComponentRefTag));
      Effect(linked,
        if Truthy(parent) && |siblings| > 1 then RegisterSiblings(linked, siblings, siblings) else linked,
        {},
        if Truthy(parent) && |siblings| > 1 then PairsOf(siblings, siblings) else {})
  {
    var siblings := ChildNames(FindAll(tag, ComponentRefTag));
    if Truthy(parent) && |siblings| > 1 {
      SiblingsKnown(tag, parent, linked.Keys);
      RegisterSiblingsEffect(linked, siblings, siblings);
    } else {
      EffectNone(linked);
    }
  }

  /** Below a named parent, every sibling names a known component. */
  lemma SiblingsKnown(tag: Element, parent: Option<string>, names: set<string>)
    requires WellReferenced(tag, parent, names) && Truthy(parent)
    ensures forall s :: s in ChildNames(FindAll(tag, ComponentRefTag)) ==> s.Some? && s.value in names
  {
    var refs := FindAll(tag, ComponentRefTag);
    forall s | s in ChildNames(refs)
      ensures s.Some? && s.value in names
    {
      var k :| 0 <= k < |refs| && ChildNames(refs)[k] == s;
      assert refs[k] in refs;
    }
  }

  lemma {:induction false} HandleRefsEffect(tag: Element, refs: seq<Element>, parent: Option<string>, comps: Components)
    requires forall x :: x in refs ==> x in tag.children && x.tag == ComponentRefTag
    requires WellReferenced(tag, parent, comps.Keys)
    ensures Effect(comps, HandleRefs(tag, refs, parent, comps), EdgesOf(tag, refs, parent), SiblingPairsOf(tag, refs))
    decreases tag, 0, |refs|
  {
    if refs == [] {
      EffectNone(comps);
    } else {
      var init := refs[..|refs| - 1];
      var last := refs[|refs| - 1];
      var child := ChildName(last);
      HandleRefsEffect(tag, init, parent, comps);
      var before := HandleRefs(tag, init, parent, comps);
      LinkEffect(before, parent, child);
      var linked := Link(before, parent, child);
      HandleRefEffect(last, child, linked);
      ThreeSteps(comps, before, linked, HandleRefs(tag, refs, parent, comps),
        EdgesOf(tag, init, parent), SiblingPairsOf(tag, init), LinkEdge(parent, child),
        Edges(last, child), SiblingPairs(last, child));
    }
  }

  // ---------------------------------------------------------------------------
  // Properties of the recorded relations

  /** The edges and sibling pairs below one <component_ref> are among those of its enclosing list. */
  lemma {:induction false} RefContained(tag: Element, refs: seq<Element>, parent: Option<string>, k: nat)
    requires forall x :: x in refs ==> x in tag.children
    requires k < |refs|
    ensures LinkEdge(parent, ChildName(refs[k])) <= EdgesOf(tag, refs, parent)
    ensures Edges(refs[k], ChildName(refs[k])) <= EdgesOf(tag, refs, parent)
    ensures SiblingPairs(refs[k], ChildName(refs[k])) <= SiblingPairsOf(tag, refs)
    decreases |refs|
  {
    if k < |refs| - 1 {
      var init := refs[..|refs| - 1];
      RefContained(tag, init, parent, k);
      assert init[k] == refs[k];
    }
  }

  /** No component is its own sibling, and the sibling relation is symmetric. */
  lemma {:induction false} SiblingPairsSymmetric(tag: Element, parent: Option<string>, a: string, b: string)
    requires (a, b) in SiblingPairs(tag, parent)
    ensures a != b && (b, a) in SiblingPairs(tag, parent)
    decreases tag, 1, 0
  {
    var refs := FindAll(tag, ComponentRefTag);
    var siblings := ChildNames(refs);
    if Truthy(parent) && |refs| > 1 && (a, b) in PairsOf(siblings, siblings) {
      PairsOfMember(siblings, siblings, a, b);
      PairsOfMember(siblings, siblings, b, a);
    } else {
      SiblingPairsOfSymmetric(tag, refs, a, b);
    }
  }

  lemma {:induction false} SiblingPairsOfSymmetric(tag: Element, refs: seq<Element>, a: string, b: string)
    requires forall x :: x in refs ==> x in tag.children
    requires (a, b) in SiblingPairsOf(tag, refs)
    ensures a != b && (b, a) in SiblingPairsOf(tag, refs)
    decreases tag, 0, |refs|
  {
    var init := refs[..|refs| - 1];
    var last := refs[|refs| - 1];
    assert last in refs;
    if (a, b) in SiblingPairsOf(tag, init) {
      SiblingPairsOfSymmetric(tag, init, a, b);
    } else {
      SiblingPairsSymmetric(last, ChildName(last), a, b);
    }
  }

  /** A <component_ref> directly below a named parent is recorded as that parent's child. */
  lemma ChildEdge(tag: Element, parent: Option<string>, k: nat)
    requires Truthy(parent)
    requires k < |FindAll(tag, ComponentRefTag)|
    requires ChildName(FindAll(tag, ComponentRefTag)[k]).Some?
    ensures (parent.value, ChildName(FindAll(tag, ComponentRefTag)[k]).value) in Edges(tag, parent)
  {
    var refs := FindAll(tag, ComponentRefTag);
    forall x | x in refs ensures x in tag.children { }
    RefContained(tag, refs, parent, k);
  }

  /** Siblings are children of one and the same parent. */
  lemma {:induction false} SiblingsShareParent(tag: Element, parent: Option<string>, a: string, b: string)
    requires (a, b) in SiblingPairs(tag, parent)
    ensures exists p :: (p, a) in Edges(tag, parent) && (p, b) in Edges(tag, parent)
    decreases tag, 1, 0
  {
    var refs := FindAll(tag, ComponentRefTag);
    var siblings := ChildNames(refs);
    if Truthy(parent) && |refs| > 1 && (a, b) in PairsOf(siblings, siblings) {
      PairsOfMember(siblings, siblings, a, b);
      var i :| 0 <= i < |refs| && siblings[i] == Some(a);
      var j :| 0 <= j < |refs| && siblings[j] == Some(b);
      ChildEdge(tag, parent, i);
      ChildEdge(tag, parent, j);
    } else {
      SiblingsOfShareParent(tag, refs, parent, a, b);
    }
  }

  lemma {:induction false} SiblingsOfShareParent(tag: Element, refs: seq<Element>, parent: Option<string>, a: string, b: string)
    requires forall x :: x in refs ==> x in tag.children
    requires (a, b) in SiblingPairsOf(tag, refs)
    ensures exists p :: (p, a) in EdgesOf(tag, refs, parent) && (p, b) in EdgesOf(tag, refs, parent)
    decreases tag, 0, |refs|
  {
    var init := refs[..|refs| - 1];
    var last := refs[|refs| - 1];
    assert last in refs;
    if (a, b) in SiblingPairsOf(tag, init) {
      SiblingsOfShareParent(tag, init, parent, a, b);
    } else {
      SiblingsShareParent(last, ChildName(last), a, b);
    }
  }

  /** Every recorded name is a component of the model. */
  lemma {:induction false} RelationsKnown(tag: Element, parent: Option<string>, names: set<string>, a: string, b: string)
    requires WellReferenced(tag, parent, names)
    requires (a, b) in Edges(tag, parent) || (a, b) in SiblingPairs(tag, parent)
    ensures a in names && b in names
    decreases tag, 1, 0
  {
    var refs := FindAll(tag, ComponentRefTag);
    var siblings := ChildNames(refs);
    if Truthy(parent) && |refs| > 1 && (a, b) in PairsOf(siblings, siblings) {
      PairsOfMember(siblings, siblings, a, b);
      SiblingsKnown(tag, parent, names);
    } else {
      RelationsOfKnown(tag, refs, parent, names, a, b);
    }
  }

  lemma {:induction false} RelationsOfKnown(tag: Element, refs: seq<Element>, parent: Option<string>, names: set<string>, a: string, b: string)
    requires forall x :: x in refs ==> x in tag.children && x.tag == ComponentRefTag
    requires WellReferenced(tag, parent, names)
    requires (a, b) in EdgesOf(tag, refs, parent) || (a, b) in SiblingPairsOf(tag, refs)
    ensures a in names && b in names
    decreases tag, 0, |refs|
  {
    var init := refs[..|refs| - 1];
    var last := refs[|refs| - 1];
    assert last in refs;
    if (a, b) in EdgesOf(tag, init, parent) || (a, b) in SiblingPairsOf(tag, init) {
      RelationsOfKnown(tag, init, parent, names, a, b);
    } else if (a, b) !in LinkEdge(parent, ChildName(last)) {
      RelationsKnown(last, ChildName(last), names, a, b);
    }
  }

  // ---------------------------------------------------------------------------
  // The hierarchy as a whole

  /** No component has a parent, children or siblings yet. */
  ghost predicate HierarchyFree(comps: Components) {
    forall n :: n in comps ==> comps[n].parent == None && comps[n].encapsulated == {} && comps[n].siblings == {}
  }

  /** No component is encapsulated by two different parents. */
  ghost predicate SingleParent(edges: Pairs) {
    forall p, q :: p in edges && q in edges && p.1 == q.1 ==> p.0 == q.0
  }

  /** A component lists c as encapsulated exactly when c names it as parent. */
  ghost predicate ParentsAgree(comps: Components) {
    forall n, c :: n in comps && c in comps ==> (c in comps[n].encapsulated <==> comps[c].parent == Some(n))
  }

  /** Siblings are known components, never the component itself, and always mutual. */
  ghost predicate SiblingsSymmetric(comps: Components) {
    forall a, b :: MutualSiblings(comps, a, b)
  }

  /** If `a` lists `b` as a sibling, then `b` is another known component that lists `a`. */
  ghost predicate MutualSiblings(comps: Components, a: string, b: string) {
    a in comps && b in comps[a].siblings ==> b in comps && b != a && a in comps[b].siblings
  }

  /** The walk keeps the sibling relation symmetric and irreflexive. */
  lemma HandleRefKeepsSiblingsSymmetric(tag: Element, parent: Option<string>, comps: Components)
    requires WellReferenced(tag, parent, comps.Keys)
    requires SiblingsSymmetric(comps)
    ensures SiblingsSymmetric(HandleRef(tag, parent, comps))
  {
    var sibs := SiblingPairs(tag, parent);
    HandleRefEffect(tag, parent, comps);
    forall a, b | (a, b) in sibs
      ensures a in comps && b in comps && a != b && (b, a) in sibs
    {
      RelationsKnown(tag, parent, comps.Keys, a, b);
      SiblingPairsSymmetric(tag, parent, a, b);
    }
    EffectAddsSiblings(comps, HandleRef(tag, parent, comps), Edges(tag, parent), sibs);
    EffectKeepsSiblingsSymmetric(comps, HandleRef(tag, parent, comps), sibs);
  }

  /** Sibling pairs between known, distinct components, recorded in both directions. */
  ghost predicate PairsSymmetric(sibs: Pairs, names: set<string>) {
    forall a, b :: (a, b) in sibs ==> a in names && b in names && a != b && (b, a) in sibs
  }

  /** `r` is `comps` with the sibling pairs `sibs` added to the sibling sets. */
  ghost predicate SiblingsAdded(comps: Components, r: Components, sibs: Pairs) {
    && r.Keys == comps.Keys
    && forall n :: n in comps ==> r[n].siblings == comps[n].siblings + Image(sibs, n)
  }

  lemma EffectAddsSiblings(comps: Components, r: Components, edges: Pairs, sibs: Pairs)
    requires Effect(comps, r, edges, sibs)
    ensures SiblingsAdded(comps, r, sibs)
  {
    forall n | n in comps
      ensures r[n].siblings == comps[n].siblings + Image(sibs, n)
    {
      assert EffectAt(comps[n], r[n], edges, sibs, n);
    }
  }

  /** Recording symmetric sibling pairs keeps the sibling relation symmetric and irreflexive. */
  lemma EffectKeepsSiblingsSymmetric(comps: Components, r: Components, sibs: Pairs)
    requires SiblingsSymmetric(comps)
    requires SiblingsAdded(comps, r, sibs)
    requires PairsSymmetric(sibs, comps.Keys)
    ensures SiblingsSymmetric(r)
  {
    forall a, b
      ensures MutualSiblings(r, a, b)
    {
      assert MutualSiblings(comps, a, b);
      if a in r && b in r[a].siblings && b !in comps[a].siblings {
        assert b in Image(sibs, a);
        assert (a, b) in sibs;
        assert a in Image(sibs, b);
      }
    }
  }

  /**
   * One encapsulation group walked from a hierarchy-free start: parent and
   * encapsulated agree in both directions (when no component has two parents),
   * and siblings are symmetric and irreflexive.
   */
  lemma GroupHierarchy(group: Element, comps: Components)
    requires WellReferenced(group, None, comps.Keys)
    requires HierarchyFree(comps)
    requires SingleParent(Edges(group, None))
    ensures ParentsAgree(HandleRef(group, None, comps))
    ensures SiblingsSymmetric(HandleRef(group, None, comps))
  {
    HandleRefEffect(group, None, comps);
    EffectParentsAgree(comps, HandleRef(group, None, comps), Edges(group, None), SiblingPairs(group, None));
    FreeSiblingsSymmetric(comps);
    HandleRefKeepsSiblingsSymmetric(group, None, comps);
  }

  /** A hierarchy-free map has no siblings, so its sibling relation is trivially symmetric. */
  lemma FreeSiblingsSymmetric(comps: Components)
    requires HierarchyFree(comps)
    ensures SiblingsSymmetric(comps)
  {
    forall a, b
      ensures MutualSiblings(comps, a, b)
    {
    }
  }

  /**
   * Recording single-parent edges on a hierarchy-free map leaves parent and
   * encapsulated agreeing in both directions.
   */
  lemma EffectParentsAgree(comps: Components, r: Components, edges: Pairs, sibs: Pairs)
    requires HierarchyFree(comps)
    requires SingleParent(edges)
    requires Effect(comps, r, edges, sibs)
    ensures ParentsAgree(r)
  {
    forall n, c | n in r && c in r
      ensures c in r[n].encapsulated <==> r[c].parent == Some(n)
    {
      ParentAgreesAt(comps, r, edges, sibs, n, c);
    }
  }

  lemma ParentAgreesAt(comps: Components, r: Components, edges: Pairs, sibs: Pairs, n: string, c: string)
    requires n in comps && c in comps && r.Keys == comps.Keys
    requires comps[n].encapsulated == {} && comps[c].parent == None
    requires SingleParent(edges)
    requires EffectAt(comps[n], r[n], edges, sibs, n)
    requires EffectAt(comps[c], r[c], edges, sibs, c)
    ensures c in r[n].encapsulated <==> r[c].parent == Some(n)
  {
    assert c in r[n].encapsulated <==> (n, c) in edges;
    if (n, c) in edges {
      assert n in Preimage(edges, c);
      assert Preimage(edges, c) == {n};
    } else {
      assert n !in Preimage(edges, c);
    }
  }

  // ---------------------------------------------------------------------------
  // __add_relationships: the <group> elements in document order

  /** A <group> must hold exactly one <relationship_ref> (the source asserts it). */
  predicate HasOneRelationship(group: Element) {
    |FindAll(group, RelationshipRefTag)| == 1
  }

  predicate IsEncapsulation(group: Element) {
    HasOneRelationship(group) && Attr(FindAll(group, RelationshipRefTag)[0], "relationship") == Some("encapsulation")
  }

  /** Every encapsulation group is well referenced. */
  ghost predicate GroupsWellReferenced(groups: seq<Element>, names: set<string>) {
    forall g :: g in groups && IsEncapsulation(g) ==> WellReferenced(g, None, names)
  }

  /** One iteration of __add_relationships. */
  function ApplyGroup(group: Element, comps: Components): (r: (Components, Outcome<ParseError>))
    requires IsEncapsulation(group) ==> WellReferenced(group, None, comps.Keys)
    ensures r.1 == Pass <==> HasOneRelationship(group)
    ensures r.1.Fail? ==> r.1.error == RelationshipRefCount(|FindAll(group, RelationshipRefTag)|)
    ensures !IsEncapsulation(group) ==> r.0 == comps
    ensures IsEncapsulation(group) ==> r.0 == HandleRef(group, None, comps)
  {
    var refs := FindAll(group, RelationshipRefTag);
    if |refs| != 1 then (comps, Fail(RelationshipRefCount(|refs|)))
    else if Attr(refs[0], "relationship") == Some("encapsulation") then (HandleRef(group, None, comps), Pass)
    else (comps, Pass)
  }

  /**
   * An encapsulation group adds exactly the parent links and sibling pairs of
   * its <component_ref> tree; any other group leaves the components alone.
   */
  lemma ApplyGroupEffect(group: Element, comps: Components)
    requires IsEncapsulation(group) ==> WellReferenced(group, None, comps.Keys)
    ensures IsEncapsulation(group) ==> Effect(comps, ApplyGroup(group, comps).0, Edges(group, None), SiblingPairs(group, None))
    ensures !IsEncapsulation(group) ==> Effect(comps, ApplyGroup(group, comps).0, {}, {})
  {
    if IsEncapsulation(group) {
      HandleRefEffect(group, None, comps);
    } else {
      EffectNone(comps);
    }
  }

  /** __add_relationships over the first n groups; it stops at the first failed assertion. */
  function RelationshipsUpTo(groups: seq<Element>, n: nat, comps: Components): (r: (Components, Outcome<ParseError>))
    requires n <= |groups| && GroupsWellReferenced(groups, comps.Keys)
    ensures r.0.Keys == comps.Keys
    decreases n
  {
    if n == 0 then (comps, Pass)
    else
      var before := RelationshipsUpTo(groups, n - 1, comps);
      if before.1.Fail? then before
      else
        assert groups[n - 1] in groups;
        ApplyGroup(groups[n - 1], before.0)
  }

  /** __add_relationships over all the groups. */
  function Relationships(groups: seq<Element>, comps: Components): (r: (Components, Outcome<ParseError>))
    requires GroupsWellReferenced(groups, comps.Keys)
  {
    RelationshipsUpTo(groups, |groups|, comps)
  }

  /** __add_relationships succeeds exactly when every <group> has one <relationship_ref>. */
  lemma {:induction false} RelationshipsPass(groups: seq<Element>, n: nat, comps: Components)
    requires n <= |groups| && GroupsWellReferenced(groups, comps.Keys)
    ensures RelationshipsUpTo(groups, n, comps).1 == Pass <==> forall k :: 0 <= k < n ==> HasOneRelationship(groups[k])
    decreases n
  {
    if n > 0 {
      RelationshipsPass(groups, n - 1, comps);
      RelationshipsPassStep(groups, n, comps);
      AllHaveOneStep(groups, n);
    }
  }

  lemma AllHaveOneStep(groups: seq<Element>, n: nat)
    requires 0 < n <= |groups|
    ensures (forall k :: 0 <= k < n ==> HasOneRelationship(groups[k]))
      <==> (forall k :: 0 <= k < n - 1 ==> HasOneRelationship(groups[k])) && HasOneRelationship(groups[n - 1])
  {
  }

  lemma RelationshipsPassStep(groups: seq<Element>, n: nat, comps: Components)
    requires 0 < n <= |groups| && GroupsWellReferenced(groups, comps.Keys)
    ensures RelationshipsUpTo(groups, n, comps).1 == Pass
      <==> RelationshipsUpTo(groups, n - 1, comps).1 == Pass && HasOneRelationship(groups[n - 1])
  {
    assert groups[n - 1] in groups;
  }

  /** A failure reports the <relationship_ref> count of a <group> that does not have exactly one. */
  lemma {:induction false} RelationshipsFail(groups: seq<Element>, n: nat, comps: Components) returns (k: nat)
    requires n <= |groups| && GroupsWellReferenced(groups, comps.Keys)
    requires RelationshipsUpTo(groups, n, comps).1.Fail?
    ensures k < n && !HasOneRelationship(groups[k])
    ensures RelationshipsUpTo(groups, n, comps).1 == Fail(RelationshipRefCount(|FindAll(groups[k], RelationshipRefTag)|))
    ensures RelationshipsUpTo(groups, k, comps).1 == Pass
    ensures RelationshipsUpTo(groups, n, comps).0 == RelationshipsUpTo(groups, k, comps).0
    decreases n
  {
    if RelationshipsUpTo(groups, n - 1, comps).1.Fail? {
      k := RelationshipsFail(groups, n - 1, comps);
    } else {
      k := n - 1;
      assert groups[k] in groups;
    }
  }

  /** Every group's walk keeps siblings symmetric and irreflexive, so the whole of __add_relationships does. */
  lemma {:induction false} RelationshipsKeepSiblingsSymmetric(groups: seq<Element>, n: nat, comps: Components)
    requires n <= |groups| && GroupsWellReferenced(groups, comps.Keys)
    requires SiblingsSymmetric(comps)
    ensures SiblingsSymmetric(RelationshipsUpTo(groups, n, comps).0)
    decreases n
  {
    if n > 0 {
      RelationshipsKeepSiblingsSymmetric(groups, n - 1, comps);
      RelationshipStepSymmetric(groups, n, comps);
    }
  }

  lemma RelationshipStepSymmetric(groups: seq<Element>, n: nat, comps: Components)
    requires 0 < n <= |groups| && GroupsWellReferenced(groups, comps.Keys)
    requires SiblingsSymmetric(RelationshipsUpTo(groups, n - 1, comps).0)
    ensures SiblingsSymmetric(RelationshipsUpTo(groups, n, comps).0)
  {
    var before := RelationshipsUpTo(groups, n - 1, comps);
    if before.1.Pass? {
      var g := groups[n - 1];
      assert g in groups;
      GroupKeepsSiblingsSymmetric(g, before.0);
    }
  }

  lemma GroupKeepsSiblingsSymmetric(group: Element, comps: Components)
    requires IsEncapsulation(group) ==> WellReferenced(group, None, comps.Keys)
    requires SiblingsSymmetric(comps)
    ensures SiblingsSymmetric(ApplyGroup(group, comps).0)
  {
    if IsEncapsulation(group) {
      HandleRefKeepsSiblingsSymmetric(group, None, comps);
    }
  }

  // ---------------------------------------------------------------------------
  // The whole of __add_relationships

  /** The edges an encapsulation group records; other groups record none. */
  ghost function GroupEdges(group: Element): Pairs {
    if IsEncapsulation(group) then Edges(group, None) else {}
  }

  /** The sibling pairs an encapsulation group records; other groups record none. */
  ghost function GroupSiblingPairs(group: Element): Pairs {
    if IsEncapsulation(group) then SiblingPairs(group, None) else {}
  }

  /** The edges of the first n groups. */
  ghost function EdgesUpTo(groups: seq<Element>, n: nat): Pairs
    requires n <= |groups|
    decreases n
  {
    if n == 0 then {} else EdgesUpTo(groups, n - 1) + GroupEdges(groups[n - 1])
  }

  /** The sibling pairs of the first n groups. */
  ghost function SiblingPairsUpTo(groups: seq<Element>, n: nat): Pairs
    requires n <= |groups|
    decreases n
  {
    if n == 0 then {} else SiblingPairsUpTo(groups, n - 1) + GroupSiblingPairs(groups[n - 1])
  }

  lemma {:induction false} EdgesUpToGrow(groups: seq<Element>, m: nat, n: nat)
    requires m <= n <= |groups|
    ensures EdgesUpTo(groups, m) <= EdgesUpTo(groups, n)
    decreases n
  {
    if m < n {
      EdgesUpToGrow(groups, m, n - 1);
    }
  }

  /**
   * When no group has failed, __add_relationships has recorded exactly the
   * edges and sibling pairs of all its encapsulation groups, and nothing else.
   */
  lemma {:induction false} RelationshipsEffect(groups: seq<Element>, n: nat, comps: Components)
    requires n <= |groups| && GroupsWellReferenced(groups, comps.Keys)
    requires RelationshipsUpTo(groups, n, comps).1 == Pass
    ensures Effect(comps, RelationshipsUpTo(groups, n, comps).0, EdgesUpTo(groups, n), SiblingPairsUpTo(groups, n))
    decreases n
  {
    if n == 0 {
      EffectNone(comps);
    } else {
      RelationshipsPassStep(groups, n, comps);
      RelationshipsEffect(groups, n - 1, comps);
      RelationshipEffectStep(groups, n, comps);
      EffectCompose(comps, RelationshipsUpTo(groups, n - 1, comps).0, RelationshipsUpTo(groups, n, comps).0,
                    EdgesUpTo(groups, n - 1), SiblingPairsUpTo(groups, n - 1), GroupEdges(groups[n - 1]), GroupSiblingPairs(groups[n - 1]));
    }
  }

  lemma RelationshipEffectStep(groups: seq<Element>, n: nat, comps: Components)
    requires 0 < n <= |groups| && GroupsWellReferenced(groups, comps.Keys)
    requires RelationshipsUpTo(groups, n - 1, comps).1 == Pass
    ensures Effect(RelationshipsUpTo(groups, n - 1, comps).0, RelationshipsUpTo(groups, n, comps).0,
                   GroupEdges(groups[n - 1]), GroupSiblingPairs(groups[n - 1]))
  {
    var g := groups[n - 1];
    assert g in groups;
    ApplyGroupEffect(g, RelationshipsUpTo(groups, n - 1, comps).0);
  }

  /**
   * __add_relationships from a hierarchy-free start, with no component
   * encapsulated by two parents across all the groups: parent and encapsulated
   * agree in both directions and siblings are symmetric and irreflexive, also
   * when a later <group> stops the loop.
   */
  lemma RelationshipsHierarchy(groups: seq<Element>, n: nat, comps: Components)
    requires n <= |groups| && GroupsWellReferenced(groups, comps.Keys)
    requires HierarchyFree(comps)
    requires SingleParent(EdgesUpTo(groups, n))
    ensures ParentsAgree(RelationshipsUpTo(groups, n, comps).0)
    ensures SiblingsSymmetric(RelationshipsUpTo(groups, n, comps).0)
  {
    var m := n;
    if RelationshipsUpTo(groups, n, comps).1.Fail? {
      m := RelationshipsFail(groups, n, comps);
      EdgesUpToGrow(groups, m, n);
    }
    RelationshipsEffect(groups, m, comps);
    EffectParentsAgree(comps, RelationshipsUpTo(groups, m, comps).0, EdgesUpTo(groups, m), SiblingPairsUpTo(groups, m));
    FreeSiblingsSymmetric(comps);
    RelationshipsKeepSiblingsSymmetric(groups, n, comps);
  }
}
