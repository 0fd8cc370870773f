/**
 * The CellML parser (parser.py) as a class whose methods fill in a model
 * object step by step, each proved to leave the model in the state the
 * specification functions of modules Hierarchy and Extraction describe.
 */
module CellmlParser {
  import opened Wrappers
  import opened Xml
  import opened ModelTypes
  import opened Hierarchy
  import opened Extraction

  const GroupTag := WithNs(Cellml, "group")

  /** The parts of the model object the parser writes to. */
  class Model {
    /** The argument of every add_unit call, in order. */
    var units: seq<UnitsMap>
    /** The components by name, as added while parsing <component> elements. */
    var components: Components
    /** model.connections */
    var connections: seq<Connection>

    constructor (components: Components)
      ensures this.units == [] && this.components == components && this.connections == []
    {
      this.units := [];
      this.components := components;
      this.connections := [];
    }

    /** Records the units definitions collected from the document. */
    method AddUnit(collected: UnitsMap)
      modifies this
      ensures units == old(units) + [collected]
      ensures components == old(components) && connections == old(connections)
    {
      units := units + [collected];
    }
  }

  class Parser {
    const model: Model

    constructor (model: Model)
      ensures this.model == model
    {
      this.model := model;
    }

    /** __add_units: collects the <units> definitions of <model> and hands them to the model once. */
    method AddUnits(modelXml: Element)
      modifies model
      ensures model.units == old(model.units) + [CollectUnits(FindAll(modelXml, UnitsTag))]
      ensures model.components == old(model.components) && model.connections == old(model.connections)
    {
      var unitsElements := FindAll(modelXml, UnitsTag);
      var collected: UnitsMap := map[];
      for i := 0 to |unitsElements|
        invariant collected == CollectUnits(unitsElements[..i])
      {
        var unitsElement := unitsElements[i];
        var unitsName := Attr(unitsElement, "name");
        var unitElements := AttrsOf(unitsElement.children);
        if unitElements == [] {
          if Attr(unitsElement, "base_units") == Some("yes") {
            collected := collected[unitsName := [map["base_units" := "yes"]]];
          }
        } else {
          collected := collected[unitsName := unitElements];
        }
        assert UnitsEntries(unitsElements[..i + 1])[..i] == UnitsEntries(unitsElements[..i]);
      }
      assert unitsElements[..|unitsElements|] == unitsElements;
      model.AddUnit(collected);
    }

    /** __add_variables: the component with the records of its <variable> children stored by name. */
    method AddVariables(component: ComponentRecord, componentXml: Element) returns (r: Result<ComponentRecord, ParseError>)
      ensures r == VariablesAdded(component, FindAll(componentXml, VariableTag))
    {
      var variableElements := FindAll(componentXml, VariableTag);
      var variables := component.variables;
      for i := 0 to |variableElements|
        invariant AllNamed(variableElements[..i])
        invariant variables == Assigned(component.variables, VariableEntries(variableElements[..i]))
      {
        var attributes := variableElements[i].attrs;
        if CmetaIdAttribute in attributes {
          attributes := (attributes - {CmetaIdAttribute})["cmeta:id" := attributes[CmetaIdAttribute]];
        }
        assert attributes == NormaliseAttributes(variableElements[i].attrs);
        if "name" !in attributes {
          NamedAfterNormalising(variableElements, i);
          return Failure(MissingVariableName);
        }
        VariablesStep(component.variables, variableElements, i);
        variables := variables[attributes["name"] := attributes];
      }
      assert variableElements[..|variableElements|] == variableElements;
      return Success(component.(variables := variables));
    }

    /**
     * __add_connection: one connection per <map_variables>, between the
     * components of the <map_components> bound when its <connection> ends.
     */
    method AddConnection(modelXml: Element) returns (outcome: Outcome<ParseError>)
      modifies model
      ensures var f := Flatten(FindAll(modelXml, ConnectionTag), None);
        outcome == f.outcome && model.connections == old(model.connections) + f.appended
      ensures model.units == old(model.units) && model.components == old(model.components)
    {
      var connectionElements := FindAll(modelXml, ConnectionTag);
      var mapComponent: Option<NamePair> := None;
      ghost var appended: seq<Connection> := [];
      for i := 0 to |connectionElements|
        invariant FlattenUpTo(connectionElements, i) == Flattened(appended, mapComponent, Pass)
        invariant model.connections == old(model.connections) + appended
        invariant model.units == old(model.units) && model.components == old(model.components)
      {
        ghost var bound := mapComponent;
        var mapVariables;
        mapComponent, mapVariables := ScanConnection(connectionElements[i], mapComponent);
        outcome := AppendConnections(mapComponent, mapVariables);
        if outcome.Fail? {
          FlattenRaises(connectionElements, i, appended, bound);
          return;
        }
        FlattenAdvance(connectionElements, i, appended, bound);
        appended := appended + Paired(mapComponent.GetOr((None, None)), mapVariables);
      }
      FlattenUpToAll(connectionElements);
      return Pass;
    }

    /**
     * The loop of __add_connection appending one connection per variable pair;
     * with pairs to append but no map_components seen yet, the source raises
     * UnboundLocalError before appending anything.
     */
    method AppendConnections(mapComponent: Option<NamePair>, mapVariables: seq<NamePair>) returns (outcome: Outcome<ParseError>)
      modifies model
      ensures outcome.Fail? <==> mapVariables != [] && mapComponent.None?
      ensures outcome.Fail? ==> outcome.error == UnboundMapComponents && model.connections == old(model.connections)
      ensures outcome.Pass? ==> model.connections == old(model.connections) + Paired(mapComponent.GetOr((None, None)), mapVariables)
      ensures model.units == old(model.units) && model.components == old(model.components)
    {
      for k := 0 to |mapVariables|
        invariant k == 0 || mapComponent.Some?
        invariant model.connections == old(model.connections) + Paired(mapComponent.GetOr((None, None)), mapVariables[..k])
        invariant model.units == old(model.units) && model.components == old(model.components)
      {
        if mapComponent.None? {
          return Fail(UnboundMapComponents);
        }
        var pair := mapVariables[k];
        PairedStep(mapComponent.value, mapVariables, k);
        model.connections := model.connections + [Connection(Endpoint(mapComponent.value.0, pair.0), Endpoint(mapComponent.value.1, pair.1))];
      }
      assert mapVariables[..|mapVariables|] == mapVariables;
      return Pass;
    }

    /**
     * The scan of one <connection>'s children in __add_connection: the last
     * <map_components> rebinds map_component, each <map_variables> adds a pair.
     */
    method ScanConnection(connection: Element, bound: Option<NamePair>) returns (mapComponent: Option<NamePair>, mapVariables: seq<NamePair>)
      ensures mapComponent == MapComponentsAfter(connection.children, bound)
      ensures mapVariables == MapVariablesOf(connection.children)
    {
      var children := connection.children;
      mapComponent := bound;
      mapVariables := [];
      for j := 0 to |children|
        invariant mapComponent == MapComponentsAfter(children[..j], bound)
        invariant mapVariables == MapVariablesOf(children[..j])
      {
        var child := children[j];
        assert children[..j + 1][..j] == children[..j];
        if child.tag == MapComponentsTag {
          mapComponent := Some((Attr(child, "component_1"), Attr(child, "component_2")));
        } else if child.tag == MapVariablesTag {
          mapVariables := mapVariables + [(Attr(child, "variable_1"), Attr(child, "variable_2"))];
        }
      }
      assert children[..|children|] == children;
    }

    /**
     * __add_relationships: walks each encapsulation <group> in document order,
     * failing on the first <group> without exactly one <relationship_ref>.
     */
    method AddRelationships(modelXml: Element) returns (outcome: Outcome<ParseError>)
      requires GroupsWellReferenced(FindAll(modelXml, GroupTag), model.components.Keys)
      modifies model
      ensures (model.components, outcome) == Relationships(FindAll(modelXml, GroupTag), old(model.components))
      ensures model.units == old(model.units) && model.connections == old(model.connections)
    {
      var groupElements := FindAll(modelXml, GroupTag);
      ghost var start := model.components;
      for i := 0 to |groupElements|
        invariant (model.components, Pass) == RelationshipsUpTo(groupElements, i, start)
        invariant model.units == old(model.units) && model.connections == old(model.connections)
      {
        RelationshipsStep(groupElements, i, start);
        outcome := VisitGroup(groupElements[i]);
        if outcome.Fail? {
          RelationshipsStop(groupElements, i + 1, |groupElements|, start);
          return;
        }
      }
      return Pass;
    }

    /** One iteration of __add_relationships: checks the <relationship_ref> count, then walks an encapsulation. */
    method VisitGroup(groupElement: Element) returns (outcome: Outcome<ParseError>)
      requires IsEncapsulation(groupElement) ==> WellReferenced(groupElement, None, model.components.Keys)
      modifies model
      ensures (model.components, outcome) == ApplyGroup(groupElement, old(model.components))
      ensures model.units == old(model.units) && model.connections == old(model.connections)
    {
      var relationshipRef := FindAll(groupElement, RelationshipRefTag);
      if |relationshipRef| != 1 {
        return Fail(RelationshipRefCount(|relationshipRef|));
      }
      var relationship := Attr(relationshipRef[0], "relationship");
      if relationship == Some("encapsulation") {
        HandleComponentRef(groupElement, None);
      }
      return Pass;
    }

    /**
     * __handle_component_ref: links each <component_ref> child to a named
     * parent, descends into it, and then registers the children as siblings.
     */
    method HandleComponentRef(parentTag: Element, parentComponent: Option<string>)
      requires WellReferenced(parentTag, parentComponent, model.components.Keys)
      modifies model
      ensures model.components == HandleRef(parentTag, parentComponent, old(model.components))
      ensures model.units == old(model.units) && model.connections == old(model.connections)
      decreases parentTag, 1
    {
      var refs := FindAll(parentTag, ComponentRefTag);
      var siblings: seq<Option<string>> := [];
      for i := 0 to |refs|
        invariant siblings == ChildNames(refs[..i])
        invariant model.components == HandleRefs(parentTag, refs[..i], parentComponent, old(model.components))
        invariant model.units == old(model.units) && model.connections == old(model.connections)
      {
        ChildNamesStep(refs, i);
        siblings := siblings + [Attr(refs[i], "component")];
        VisitComponentRef(parentTag, parentComponent, refs[i], i, old(model.components));
      }
      assert refs[..|refs|] == refs;
      if Truthy(parentComponent) && |siblings| > 1 {
        SiblingsKnown(parentTag, parentComponent, model.components.Keys);
        RegisterSiblingPairs(siblings);
      }
      HandleRefUnfold(parentTag, parentComponent, old(model.components));
    }

    /** One pass of the loop of __handle_component_ref: link the i-th <component_ref>, then descend into it. */
    method VisitComponentRef(parentTag: Element, parentComponent: Option<string>, componentRef: Element, ghost i: nat, ghost start: Components)
      requires WellReferenced(parentTag, parentComponent, start.Keys)
      requires i < |FindAll(parentTag, ComponentRefTag)| && componentRef == FindAll(parentTag, ComponentRefTag)[i]
      requires model.components == HandleRefs(parentTag, FindAll(parentTag, ComponentRefTag)[..i], parentComponent, start)
      modifies model
      ensures model.components == HandleRefs(parentTag, FindAll(parentTag, ComponentRefTag)[..i + 1], parentComponent, start)
      ensures model.units == old(model.units) && model.connections == old(model.connections)
      decreases parentTag, 0
    {
      HandleRefsStep(parentTag, i, parentComponent, start);
      assert componentRef in parentTag.children;
      var childComponent := Attr(componentRef, "component");
      LinkComponents(parentComponent, childComponent);
      HandleComponentRef(componentRef, childComponent);
    }

    /** Below a named parent: parent.add_encapsulated(child) and child.set_parent(parent). */
    method LinkComponents(parentComponent: Option<string>, childComponent: Option<string>)
      requires Truthy(parentComponent) ==>
        parentComponent.value in model.components && childComponent.Some? && childComponent.value in model.components
      modifies model
      ensures model.components == Link(old(model.components), parentComponent, childComponent)
      ensures model.units == old(model.units) && model.connections == old(model.connections)
    {
      if Truthy(parentComponent) {
        var p := model.components[parentComponent.value];
        model.components := model.components[parentComponent.value := p.(encapsulated := p.encapsulated + {childComponent.value})];
        var c := model.components[childComponent.value];
        model.components := model.components[childComponent.value := c.(parent := parentComponent)];
      }
    }

    /**
     * The sibling phase of __handle_component_ref: each component of `siblings`
     * records every other one, over itertools.product(siblings, siblings).
     */
    method RegisterSiblingPairs(siblings: seq<Option<string>>)
      requires forall s :: s in siblings ==> s.Some? && s.value in model.components
      modifies model
      ensures model.components == RegisterSiblings(old(model.components), siblings, siblings)
      ensures model.units == old(model.units) && model.connections == old(model.connections)
    {
      for a := 0 to |siblings|
        invariant model.components == RegisterSiblings(old(model.components), siblings, siblings[..a])
        invariant model.components.Keys == old(model.components).Keys
        invariant model.units == old(model.units) && model.connections == old(model.connections)
      {
        RegisterSiblingsStep(old(model.components), siblings, a);
        ghost var start := model.components;
        var componentA := siblings[a];
        for b := 0 to |siblings|
          invariant model.components == RegisterSibling(start, componentA, siblings[..b])
          invariant model.components.Keys == old(model.components).Keys
          invariant model.units == old(model.units) && model.connections == old(model.connections)
        {
          RegisterSiblingStep(start, componentA, siblings, b);
          var componentB := siblings[b];
          if componentA != componentB {
            var ca := model.components[componentA.value];
            model.components := model.components[componentA.value := ca.(siblings := ca.siblings + {componentB.value})];
          }
        }
        assert siblings[..|siblings|] == siblings;
      }
      assert siblings[..|siblings|] == siblings;
    }
  }

  lemma HandleRefUnfold(tag: Element, parent: Option<string>, comps: Components)
    requires WellReferenced(tag, parent, comps.Keys)
    ensures var refs := FindAll(tag, ComponentRefTag);
      var linked := HandleRefs(tag, refs, parent, comps);
      var siblings := ChildNames(refs);
      HandleRef(tag, parent, comps) == if Truthy(parent) && |siblings| > 1 then RegisterSiblings(linked, siblings, siblings) else linked
  {
  }

  lemma ChildNamesStep(refs: seq<Element>, i: nat)
    requires i < |refs|
    ensures ChildNames(refs[..i + 1]) == ChildNames(refs[..i]) + [ChildName(refs[i])]
  {
    assert refs[..i + 1][..i] == refs[..i];
  }

  lemma RegisterSiblingsStep(comps: Components, siblings: seq<Option<string>>, a: nat)
    requires forall s :: s in siblings ==> s.Some? && s.value in comps
    requires a < |siblings|
    ensures RegisterSiblings(comps, siblings, siblings[..a + 1])
      == RegisterSibling(RegisterSiblings(comps, siblings, siblings[..a]), siblings[a], siblings)
  {
    assert siblings[..a + 1][..a] == siblings[..a];
  }

  lemma RegisterSiblingStep(comps: Components, a: Option<string>, others: seq<Option<string>>, b: nat)
    requires a.Some? && a.value in comps
    requires forall s :: s in others ==> s.Some?
    requires b < |others|
    ensures var r := RegisterSibling(comps, a, others[..b]);
      RegisterSibling(comps, a, others[..b + 1])
        == if a != others[b] then r[a.value := r[a.value].(siblings := r[a.value].siblings + {others[b].value})] else r
  {
    assert others[..b + 1][..b] == others[..b];
  }

  /** The lookups for one <component_ref> of a well-referenced tag succeed, and so do those below it. */
  lemma RefLookups(tag: Element, parent: Option<string>, names: set<string>, r: Element)
    requires WellReferenced(tag, parent, names)
    requires r in tag.children && r.tag == ComponentRefTag
    ensures Truthy(parent) ==> parent.value in names && ChildName(r).Some? && ChildName(r).value in names
    ensures WellReferenced(r, ChildName(r), names)
  {
  }

  /** One more <component_ref>: its lookups succeed and the walk extends by linking it and descending. */
  lemma HandleRefsStep(tag: Element, i: nat, parent: Option<string>, comps: Components)
    requires WellReferenced(tag, parent, comps.Keys)
    requires i < |FindAll(tag, ComponentRefTag)|
    ensures var refs := FindAll(tag, ComponentRefTag);
      var before := HandleRefs(tag, refs[..i], parent, comps);
      var child := ChildName(refs[i]);
      && (Truthy(parent) ==> parent.value in before && child.Some? && child.value in before)
      && WellReferenced(refs[i], child, Link(before, parent, child).Keys)
      && HandleRefs(tag, refs[..i + 1], parent, comps) == HandleRef(refs[i], child, Link(before, parent, child))
  {
    var refs := FindAll(tag, ComponentRefTag);
    assert refs[i] in refs;
    RefLookups(tag, parent, comps.Keys, refs[i]);
    assert refs[..i + 1][..i] == refs[..i];
  }

  lemma NamedAfterNormalising(elements: seq<Element>, i: nat)
    requires i < |elements| && "name" !in NormaliseAttributes(elements[i].attrs)
    ensures !AllNamed(elements)
  {
    assert "name" != CmetaIdAttribute;
  }

  lemma VariablesStep(variables: map<string, Attrs>, elements: seq<Element>, i: nat)
    requires i < |elements| && AllNamed(elements[..i]) && "name" in NormaliseAttributes(elements[i].attrs)
    ensures AllNamed(elements[..i + 1])
    ensures var attributes := NormaliseAttributes(elements[i].attrs);
      Assigned(variables, VariableEntries(elements[..i + 1]))
        == Assigned(variables, VariableEntries(elements[..i]))[attributes["name"] := attributes]
  {
    assert "name" != CmetaIdAttribute && "name" != "cmeta:id";
    assert VariableEntries(elements[..i + 1])[..i] == VariableEntries(elements[..i]);
    assert elements[..i + 1] == elements[..i] + [elements[i]];
  }

  /** A <connection> with no <map_variables>, or with map_component bound, appends its pairs and passes. */
  lemma FlattenOneBound(before: Flattened, connection: Element)
    requires before.outcome.Pass?
    requires MapVariablesOf(connection.children) == [] || MapComponentsAfter(connection.children, before.mapComponents).Some?
    ensures var mapComponent := MapComponentsAfter(connection.children, before.mapComponents);
      FlattenOne(before, connection)
        == Flattened(before.appended + Paired(mapComponent.GetOr((None, None)), MapVariablesOf(connection.children)), mapComponent, Pass)
  {
  }

  /** Flatten of the first n connections from an unbound map_component, by index. */
  function FlattenUpTo(connections: seq<Element>, n: nat): Flattened
    requires n <= |connections|
  {
    if n == 0 then Flattened([], None, Pass)
    else FlattenOne(FlattenUpTo(connections, n - 1), connections[n - 1])
  }

  /** One more <group>: it is well referenced against the current components and extends the walk. */
  lemma RelationshipsStep(groups: seq<Element>, i: nat, comps: Components)
    requires i < |groups| && GroupsWellReferenced(groups, comps.Keys)
    requires RelationshipsUpTo(groups, i, comps).1 == Pass
    ensures var before := RelationshipsUpTo(groups, i, comps).0;
      && (IsEncapsulation(groups[i]) ==> WellReferenced(groups[i], None, before.Keys))
      && RelationshipsUpTo(groups, i + 1, comps) == ApplyGroup(groups[i], before)
  {
    assert groups[i] in groups;
  }

  lemma {:induction false} FlattenUpToPrefix(connections: seq<Element>, n: nat)
    requires n <= |connections|
    ensures FlattenUpTo(connections, n) == Flatten(connections[..n], None)
  {
    if n > 0 {
      FlattenUpToPrefix(connections, n - 1);
      assert connections[..n][..n - 1] == connections[..n - 1];
    }
  }

  lemma FlattenUpToAll(connections: seq<Element>)
    ensures FlattenUpTo(connections, |connections|) == Flatten(connections, None)
  {
    FlattenUpToPrefix(connections, |connections|);
    assert connections[..|connections|] == connections;
  }

  /** A <connection> that does not raise extends the flattening by its own pairs and binding. */
  lemma FlattenAdvance(connections: seq<Element>, i: nat, appended: seq<Connection>, bound: Option<NamePair>)
    requires i < |connections|
    requires FlattenUpTo(connections, i) == Flattened(appended, bound, Pass)
    requires var children := connections[i].children;
      MapVariablesOf(children) == [] || MapComponentsAfter(children, bound).Some?
    ensures var children := connections[i].children;
      var mapComponent := MapComponentsAfter(children, bound);
      FlattenUpTo(connections, i + 1)
        == Flattened(appended + Paired(mapComponent.GetOr((None, None)), MapVariablesOf(children)), mapComponent, Pass)
  {
    FlattenOneBound(FlattenUpTo(connections, i), connections[i]);
  }

  /** A <connection> with <map_variables> but no map_component bound raises, and that is the result. */
  lemma FlattenRaises(connections: seq<Element>, i: nat, appended: seq<Connection>, bound: Option<NamePair>)
    requires i < |connections|
    requires FlattenUpTo(connections, i) == Flattened(appended, bound, Pass)
    requires var children := connections[i].children;
      MapVariablesOf(children) != [] && MapComponentsAfter(children, bound).None?
    ensures Flatten(connections, None) == Flattened(appended, None, Fail(UnboundMapComponents))
  {
    FlattenUpToStops(connections, i + 1, |connections|);
    FlattenUpToAll(connections);
  }

  /** Once a <connection> has raised, later ones add nothing. */
  lemma {:induction false} FlattenUpToStops(connections: seq<Element>, i: nat, n: nat)
    requires i <= n <= |connections| && FlattenUpTo(connections, i).outcome.Fail?
    ensures FlattenUpTo(connections, n) == FlattenUpTo(connections, i)
    decreases n
  {
    if i < n {
      FlattenUpToStops(connections, i, n - 1);
    }
  }

  lemma PairedStep(components: NamePair, variables: seq<NamePair>, k: nat)
    requires k < |variables|
    ensures Paired(components, variables[..k + 1])
      == Paired(components, variables[..k]) + [Connection(Endpoint(components.0, variables[k].0), Endpoint(components.1, variables[k].1))]
  {
    assert variables[..k + 1][..k] == variables[..k];
  }

  /** Once a <group> has failed its assertion, later groups change nothing. */
  lemma {:induction false} RelationshipsStop(groups: seq<Element>, i: nat, n: nat, comps: Components)
    requires i <= n <= |groups| && GroupsWellReferenced(groups, comps.Keys)
    requires RelationshipsUpTo(groups, i, comps).1.Fail?
    ensures RelationshipsUpTo(groups, n, comps) == RelationshipsUpTo(groups, i, comps)
    decreases n
  {
    if i < n {
      RelationshipsStop(groups, i, n - 1, comps);
    }
  }
}
