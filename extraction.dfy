/**
 * The dictionary- and list-building steps of the CellML parser (parser.py):
 * the <units> definitions it collects, the attribute records of <variable>
 * elements, and the connection tuples it flattens <connection> elements into,
 * stated as functions with the properties the parser promises.
 */
module Extraction {
  import opened Wrappers
  import opened Xml
  import opened ModelTypes

  // ---------------------------------------------------------------------------
  // Python dictionaries filled by successive assignments

  /** A dictionary after assigning the entries in order; a None entry assigns nothing. */
  function Assigned<K(==), V>(m: map<K, V>, entries: seq<Option<(K, V)>>): map<K, V>
    decreases |entries|
  {
    if entries == [] then m
    else
      var before := Assigned(m, entries[..|entries| - 1]);
      match entries[|entries| - 1]
      case Some(kv) => before[kv.0 := kv.1]
      case None => before
  }

  /** The index of the last entry assigning key k, or -1 if none does. */
  function LastAssigning<K(==), V>(entries: seq<Option<(K, V)>>, k: K): (i: int)
    ensures -1 <= i < |entries|
    ensures i >= 0 ==> entries[i].Some? && entries[i].value.0 == k
    ensures forall j :: i < j < |entries| ==> !(entries[j].Some? && entries[j].value.0 == k)
    decreases |entries|
  {
    if entries == [] then -1
    else
      var last := entries[|entries| - 1];
      if last.Some? && last.value.0 == k then |entries| - 1
      else LastAssigning(entries[..|entries| - 1], k)
  }

  /** The last assignment to a key wins; keys never assigned keep their old value. */
  lemma {:induction false} AssignedAt<K, V>(m: map<K, V>, entries: seq<Option<(K, V)>>, k: K)
    ensures var i := LastAssigning(entries, k);
      && (k in Assigned(m, entries) <==> k in m || i >= 0)
      && (i >= 0 ==> Assigned(m, entries)[k] == entries[i].value.1)
      && (i < 0 && k in m ==> Assigned(m, entries)[k] == m[k])
    decreases |entries|
  {
    if entries != [] {
      AssignedAt(m, entries[..|entries| - 1], k);
    }
  }

  // ---------------------------------------------------------------------------
  // __add_units

  const UnitsTag := WithNs(Cellml, "units")

  /** Unit definitions by name (attrib.get('name'), so possibly None). */
  type UnitsMap = map<Option<string>, seq<Attrs>>

  /** The attribute dictionaries of the given elements, in order. */
  function AttrsOf(elements: seq<Element>): (r: seq<Attrs>)
    ensures |r| == |elements| && forall i :: 0 <= i < |elements| ==> r[i] == elements[i].attrs
  {
    seq(|elements|, i requires 0 <= i < |elements| => elements[i].attrs)
  }

  /**
   * What one <units> element contributes: the attributes of its children, or
   * for a childless base unit the marker [{'base_units': 'yes'}], or nothing.
   */
  function UnitsEntry(e: Element): Option<(Option<string>, seq<Attrs>)> {
    if e.children == [] then
      if Attr(e, "base_units") == Some("yes") then Some((Attr(e, "name"), [map["base_units" := "yes"]]))
      else None
    else Some((Attr(e, "name"), AttrsOf(e.children)))
  }

  function UnitsEntries(elements: seq<Element>): (r: seq<Option<(Option<string>, seq<Attrs>)>>)
    ensures |r| == |elements| && forall i :: 0 <= i < |elements| ==> r[i] == UnitsEntry(elements[i])
  {
    seq(|elements|, i requires 0 <= i < |elements| => UnitsEntry(elements[i]))
  }

  /** units_collected after the loop of __add_units over the given <units> elements. */
  function CollectUnits(elements: seq<Element>): UnitsMap {
    Assigned(map[], UnitsEntries(elements))
  }

  /**
   * A name is collected exactly when some <units> element of that name has
   * children or says base_units="yes"; the last such element decides its value.
   */
  lemma UnitsCollected(elements: seq<Element>, name: Option<string>)
    ensures var i := LastAssigning(UnitsEntries(elements), name);
      && (name in CollectUnits(elements) <==> i >= 0)
      && (i >= 0 ==> Attr(elements[i], "name") == name)
      && (i >= 0 && elements[i].children != [] ==> CollectUnits(elements)[name] == AttrsOf(elements[i].children))
      && (i >= 0 && elements[i].children == [] ==>
            Attr(elements[i], "base_units") == Some("yes") && CollectUnits(elements)[name] == [map["base_units" := "yes"]])
      && (forall j :: i < j < |elements| && Attr(elements[j], "name") == name ==>
            elements[j].children == [] && Attr(elements[j], "base_units") != Some("yes"))
  {
    var entries := UnitsEntries(elements);
    AssignedAt(map[], entries, name);
    var i := LastAssigning(entries, name);
    forall j | i < j < |elements| && Attr(elements[j], "name") == name
      ensures elements[j].children == [] && Attr(elements[j], "base_units") != Some("yes")
    {
      assert !(entries[j].Some? && entries[j].value.0 == name);
    }
  }

  // ---------------------------------------------------------------------------
  // __add_variables

  const VariableTag := WithNs(Cellml, "variable")
  const CmetaIdAttribute := WithNs(Cmeta, "id")

  /** The namespaced cmeta:id attribute is renamed to the plain key 'cmeta:id'. */
  function NormaliseAttributes(a: Attrs): (r: Attrs)
    ensures CmetaIdAttribute !in a ==> r == a
    ensures "cmeta:id" in r <==> "cmeta:id" in a || CmetaIdAttribute in a
    ensures CmetaIdAttribute !in r
    ensures CmetaIdAttribute in a ==> "cmeta:id" in r && r["cmeta:id"] == a[CmetaIdAttribute]
    ensures forall k :: k in a && k != CmetaIdAttribute && k != "cmeta:id" ==> k in r && r[k] == a[k]
    ensures forall k :: k in r && k != "cmeta:id" ==> k in a && r[k] == a[k]
  {
    if CmetaIdAttribute in a then (a - {CmetaIdAttribute})["cmeta:id" := a[CmetaIdAttribute]] else a
  }

  /** The record of one <variable>, keyed by its name; None when it has no name. */
  function VariableEntry(e: Element): Option<(string, Attrs)> {
    var attributes := NormaliseAttributes(e.attrs);
    if "name" in attributes then Some((attributes["name"], attributes)) else None
  }

  function VariableEntries(elements: seq<Element>): (r: seq<Option<(string, Attrs)>>)
    ensures |r| == |elements| && forall i :: 0 <= i < |elements| ==> r[i] == VariableEntry(elements[i])
  {
    seq(|elements|, i requires 0 <= i < |elements| => VariableEntry(elements[i]))
  }

  /** Every <variable> has a name attribute; otherwise the source raises KeyError. */
  predicate AllNamed(elements: seq<Element>) {
    forall i :: 0 <= i < |elements| ==> "name" in elements[i].attrs
  }

  /** The component after __add_variables has stored the given <variable> elements. */
  function VariablesAdded(component: ComponentRecord, elements: seq<Element>): Result<ComponentRecord, ParseError> {
    if AllNamed(elements) then Success(component.(variables := Assigned(component.variables, VariableEntries(elements))))
    else Failure(MissingVariableName)
  }

  /**
   * A stored variable record is its element's attributes with cmeta:id renamed,
   * stored under its name, the last element of a name winning; nothing but the
   * variables changes, and a nameless <variable> fails.
   */
  lemma VariablesStored(component: ComponentRecord, elements: seq<Element>, name: string)
    ensures VariablesAdded(component, elements).Success? <==> AllNamed(elements)
    ensures VariablesAdded(component, elements).Success? ==>
      var r := VariablesAdded(component, elements).value;
      var i := LastAssigning(VariableEntries(elements), name);
      && r.(variables := component.variables) == component
      && (name in r.variables <==> name in component.variables || i >= 0)
      && (i >= 0 ==> elements[i].attrs["name"] == name && r.variables[name] == NormaliseAttributes(elements[i].attrs))
      && (i < 0 && name in component.variables ==> r.variables[name] == component.variables[name])
  {
    var entries := VariableEntries(elements);
    AssignedAt(component.variables, entries, name);
    assert "name" != CmetaIdAttribute && "name" != "cmeta:id";
  }

  // ---------------------------------------------------------------------------
  // __add_connection

  const ConnectionTag := WithNs(Cellml, "connection")
  const MapComponentsTag := WithNs(Cellml, "map_components")
  const MapVariablesTag := WithNs(Cellml, "map_variables")

  type NamePair = (Option<string>, Option<string>)

  datatype Endpoint = Endpoint(component: Option<string>, variable: Option<string>)

  /** ((component_1, variable_1), (component_2, variable_2)), as appended to model.connections. */
  datatype Connection = Connection(first: Endpoint, second: Endpoint)

  /**
   * The binding of map_component after scanning `children`: the last
   * <map_components> among them, otherwise what was bound before (the local
   * variable outlives the <connection> that set it).
   */
  function MapComponentsAfter(children: seq<Element>, bound: Option<NamePair>): Option<NamePair>
    decreases |children|
  {
    if children == [] then bound
    else
      var last := children[|children| - 1];
      if last.tag == MapComponentsTag then Some((Attr(last, "component_1"), Attr(last, "component_2")))
      else MapComponentsAfter(children[..|children| - 1], bound)
  }

  /** The (variable_1, variable_2) pairs of the <map_variables> children, in order. */
  function MapVariablesOf(children: seq<Element>): seq<NamePair>
    decreases |children|
  {
    if children == [] then []
    else
      var last := children[|children| - 1];
      MapVariablesOf(children[..|children| - 1]) + (if last.tag == MapVariablesTag then [(Attr(last, "variable_1"), Attr(last, "variable_2"))] else [])
  }

  /** Each variable pair becomes one connection between the two mapped components. */
  function Paired(components: NamePair, variables: seq<NamePair>): seq<Connection>
    decreases |variables|
  {
    if variables == [] then []
    else
      var last := variables[|variables| - 1];
      Paired(components, variables[..|variables| - 1]) + [Connection(Endpoint(components.0, last.0), Endpoint(components.1, last.1))]
  }

  /** The k-th connection joins the k-th variable pair across the two mapped components. */
  lemma {:induction false} PairedExact(components: NamePair, variables: seq<NamePair>)
    ensures |Paired(components, variables)| == |variables|
    ensures forall k :: 0 <= k < |variables| ==>
      Paired(components, variables)[k] == Connection(Endpoint(components.0, variables[k].0), Endpoint(components.1, variables[k].1))
    decreases |variables|
  {
    if variables != [] {
      PairedExact(components, variables[..|variables| - 1]);
    }
  }

  /** What __add_connection has appended, the binding of map_component, and whether it raised. */
  datatype Flattened = Flattened(appended: seq<Connection>, mapComponents: Option<NamePair>, outcome: Outcome<ParseError>)

  /** One iteration of the loop of __add_connection over <connection> elements. */
  function FlattenOne(before: Flattened, connection: Element): Flattened {
    if before.outcome.Fail? then before
    else
      var components := MapComponentsAfter(connection.children, before.mapComponents);
      var variables := MapVariablesOf(connection.children);
      if variables == [] then Flattened(before.appended, components, Pass)
      else if components.None? then Flattened(before.appended, components, Fail(UnboundMapComponents))
      else Flattened(before.appended + Paired(components.value, variables), components, Pass)
  }

  /** __add_connection over the given <connection> elements, starting from binding `bound`. */
  function Flatten(connections: seq<Element>, bound: Option<NamePair>): Flattened
    decreases |connections|
  {
    if connections == [] then Flattened([], bound, Pass)
    else FlattenOne(Flatten(connections[..|connections| - 1], bound), connections[|connections| - 1])
  }

  /** The number of <map_variables> in the given <connection> elements. */
  function MapVariablesCount(connections: seq<Element>): nat
    decreases |connections|
  {
    if connections == [] then 0
    else MapVariablesCount(connections[..|connections| - 1]) + |MapVariablesOf(connections[|connections| - 1].children)|
  }

  /** Without an error, exactly one connection is appended per <map_variables>. */
  lemma {:induction false} FlattenCount(connections: seq<Element>, bound: Option<NamePair>)
    ensures Flatten(connections, bound).outcome.Pass? ==> |Flatten(connections, bound).appended| == MapVariablesCount(connections)
    ensures |Flatten(connections, bound).appended| <= MapVariablesCount(connections)
    decreases |connections|
  {
    if connections != [] {
      FlattenCount(connections[..|connections| - 1], bound);
      var last := connections[|connections| - 1];
      var before := Flatten(connections[..|connections| - 1], bound);
      var components := MapComponentsAfter(last.children, before.mapComponents);
      if components.Some? {
        PairedExact(components.value, MapVariablesOf(last.children));
      }
    }
  }

  /**
   * Document order: the connections of later <connection> elements follow
   * those of earlier ones, each group continuing from the binding the earlier
   * ones left behind.
   */
  lemma {:induction false} FlattenAppend(a: seq<Element>, b: seq<Element>, bound: Option<NamePair>)
    requires Flatten(a, bound).outcome.Pass?
    ensures var fa := Flatten(a, bound); var fb := Flatten(b, fa.mapComponents);
      Flatten(a + b, bound) == Flattened(fa.appended + fb.appended, fb.mapComponents, fb.outcome)
    decreases |b|
  {
    var fa := Flatten(a, bound);
    if b == [] {
      assert a + b == a;
    } else {
      var init := b[..|b| - 1];
      FlattenAppend(a, init, bound);
      assert (a + b)[..|a + b| - 1] == a + init;
      assert (a + b)[|a + b| - 1] == b[|b| - 1];
      FlattenOneAfter(fa.appended, Flatten(init, fa.mapComponents), b[|b| - 1]);
    }
  }

  /** Once a <connection> has raised, the ones after it add nothing and change nothing. */
  lemma {:induction false} FlattenFailed(a: seq<Element>, b: seq<Element>, bound: Option<NamePair>)
    requires Flatten(a, bound).outcome.Fail?
    ensures Flatten(a + b, bound) == Flatten(a, bound)
    decreases |b|
  {
    if b == [] {
      assert a + b == a;
    } else {
      FlattenFailed(a, b[..|b| - 1], bound);
      assert (a + b)[..|a + b| - 1] == a + b[..|b| - 1];
    }
  }

  /** What earlier connections appended stays in front of what one more <connection> appends. */
  lemma FlattenOneAfter(prefix: seq<Connection>, before: Flattened, connection: Element)
    ensures FlattenOne(before.(appended := prefix + before.appended), connection)
      == FlattenOne(before, connection).(appended := prefix + FlattenOne(before, connection).appended)
  {
  }

  /** The last <map_components> of an element, if it has one. */
  function OwnMapComponents(children: seq<Element>): Option<NamePair> {
    MapComponentsAfter(children, None)
  }

  lemma {:induction false} OwnMapComponentsWins(children: seq<Element>, bound: Option<NamePair>)
    requires OwnMapComponents(children).Some?
    ensures MapComponentsAfter(children, bound) == OwnMapComponents(children)
    decreases |children|
  {
    if children != [] && children[|children| - 1].tag != MapComponentsTag {
      OwnMapComponentsWins(children[..|children| - 1], bound);
    }
  }

  /**
   * A <connection> with its own <map_components> yields exactly one
   * connection per <map_variables>, in order, each between the components
   * its <map_components> names, whatever came before it.
   */
  lemma OneConnection(connection: Element, bound: Option<NamePair>)
    requires OwnMapComponents(connection.children).Some?
    ensures var f := Flatten([connection], bound);
      var components := OwnMapComponents(connection.children).value;
      var variables := MapVariablesOf(connection.children);
      && f.outcome == Pass
      && |f.appended| == |variables|
      && forall k :: 0 <= k < |variables| ==>
           f.appended[k] == Connection(Endpoint(components.0, variables[k].0), Endpoint(components.1, variables[k].1))
  {
    OneConnectionPaired(connection, bound);
    PairedExact(OwnMapComponents(connection.children).value, MapVariablesOf(connection.children));
  }

  lemma OneConnectionPaired(connection: Element, bound: Option<NamePair>)
    requires OwnMapComponents(connection.children).Some?
    ensures var f := Flatten([connection], bound);
      f.outcome == Pass && f.appended == Paired(OwnMapComponents(connection.children).value, MapVariablesOf(connection.children))
  {
    var components := OwnMapComponents(connection.children).value;
    var variables := MapVariablesOf(connection.children);
    OwnMapComponentsWins(connection.children, bound);
    assert [connection][..0] == [];
    assert Flatten([connection][..0], bound) == Flattened([], bound, Pass);
    var f := Flatten([connection], bound);
    assert f == FlattenOne(Flattened([], bound, Pass), connection);
    if variables == [] {
      assert Paired(components, variables) == [];
    } else {
      assert f.appended == [] + Paired(components, variables);
    }
  }
}
