# cellmlmanip parser and unit store, modelled in Dafny

This project models two parts of cellmlmanip, a Python library that loads CellML 1.0 models.

The first part is the CellML parser (`cellmlmanip/parser.py`). It reads a document's `<units>`,
`<variable>`, `<connection>` and `<group>` elements and fills in a model object:
- the units definitions handed to `add_unit`;
- each component's variable records;
- the list of variable connections;
- the encapsulation hierarchy of the components (parent, encapsulated children, siblings).

The second part is the unit store (`cellmlmanip/units.py`). It resolves unit names against a Pint
registry and, the first time a custom CellML unit is asked for, builds its Pint definition string
from the unit's `<unit>` elements and registers it.

The XML document is a tree of `Element(tag, attrs, children)` values. Tags are in ElementTree's
Clark notation, `{namespace}name`. `findall` is the filter `Xml.FindAll` over the direct children.

## Modules

- `wrappers.dfy` (`Wrappers`): `Option`, `Result` and `Outcome`.
- `xml.dfy` (`Xml`): elements, the four CellML namespaces, `with_ns` and its read-back, `findall`,
  `attrib.get` and Python truthiness of a string.
- `model_types.dfy` (`ModelTypes`): the component record the parser fills in, and the parser's errors.
- `hierarchy.dfy` (`Hierarchy`): `__add_relationships` and `__handle_component_ref` as functions on the
  component map. It also holds the relations these record:
  - `Edges`: the (parent, child) pairs of nested `<component_ref>`s below a named parent;
  - `SiblingPairs`: the ordered pairs of distinct children of one named parent with more than one child;
  - `Effect`: the predicate saying a result differs from its start by exactly those relations;
    `HandleRefEffect` proves that the walk satisfies it.
- `extraction.dfy` (`Extraction`): the dictionaries and lists built by `__add_units`,
  `__add_variables` and `__add_connection`, as folds with their properties.
- `parser.dfy` (`CellmlParser`): the parser as a class whose methods run the source's loops.
  `AddUnits`, `AddConnection` and `AddRelationships` update a `Model` object. `AddVariables` builds
  and returns one component's record, and leaves the `Model` alone. Each method is proved to give the
  result the functions above describe.
- `units.dfy` (`Units`): the `UnitStore` class. `get_quantity` and `_make_cellml_unit` are mutually
  recursive methods. `GetQuantity` is proved against the function `Resolve` and `MakeCellmlUnit`
  against `Make`. The lemmas about `Resolve`, `Make` and `MakeUpTo` carry the properties.

Behaviour of the source that the model keeps on purpose:
- `map_component` in `__add_connection` is a function-level variable. A `<connection>` without its own
  `<map_components>` therefore reuses the previous connection's pair. With none bound at all, a
  `<map_variables>` raises `UnboundLocalError`, which is `Fail(UnboundMapComponents)`; the connections
  appended before it stay.
- A `<group>` without exactly one `<relationship_ref>` fails the assertion, which is
  `Fail(RelationshipRefCount(n))`. It stops `__add_relationships` after the groups before it have been
  applied.
- A `<variable>` without a `name` raises `KeyError`, which is `Failure(MissingVariableName)`.
- A custom unit whose `<unit>` lacks a `units` attribute raises `KeyError`, which is
  `Failure(MissingUnits(name))`. This includes the `[{'base_units': 'yes'}]` marker the parser stores for
  base units.
- A custom unit defined in terms of itself recurses until Python gives up, which is
  `Failure(Recursion(name))`. The store's state at that point is the state at the first repeated visit,
  because every later step of the endless recursion changes nothing. In the source, an acyclic chain of
  custom units nested deeper than Python's recursion limit also raises `RecursionError`. The model has no
  depth limit and resolves such a chain.

## Model

| member | source | states |
|---|---|---|
| Xml.WithNs | cellmlmanip/parser.py:29-32 | computes `'{' + uri + '}' + name`, the Clark-notation tag of a local name in one of the four CellML namespaces |
| Xml.WithNsRoundTrip | cellmlmanip/parser.py:29-32 | a name built by with_ns splits back into exactly the namespace URI and local name it was built from |
| Xml.WithNsInjective | cellmlmanip/parser.py:15-32 | different namespaces or local names never give the same Clark-notation tag |
| Xml.FindAllExact | cellmlmanip/parser.py:73 | findall returns exactly the direct children carrying the tag |
| Xml.FilterAppend | cellmlmanip/parser.py:73 | findall distributes over concatenation of the children, so matches come out in document order with their multiplicity |
| Extraction.CollectUnits | cellmlmanip/parser.py:75-84 | computes the dictionary the units loop builds: name to the `<unit>` attribute maps, or `[{'base_units': 'yes'}]`, the last qualifying element of a name winning |
| Extraction.UnitsCollected | cellmlmanip/parser.py:75-84 | a units name is collected exactly when some `<units>` of that name has children or says base_units="yes"; the last such element decides the value: its children's attribute maps, or `[{'base_units': 'yes'}]`; later same-named elements are childless non-base units |
| Extraction.AssignedAt | cellmlmanip/parser.py:82-84 | in a dictionary filled by successive assignments, the last assignment to a key wins and keys never assigned keep their value |
| CellmlParser.Parser.AddUnits | cellmlmanip/parser.py:71-86 | the loop hands add_unit the whole collected map once, and nothing else in the model changes |
| CellmlParser.Model.AddUnit | cellmlmanip/parser.py:86 | add_unit records its argument and leaves components and connections alone |
| Extraction.NormaliseAttributes | cellmlmanip/parser.py:122-127 | the namespaced cmeta id moves to key 'cmeta:id' and the namespaced key is gone; every other attribute is unchanged; without the namespaced key the map is returned as is, and 'cmeta:id' is present afterwards iff either key was |
| Extraction.VariablesAdded | cellmlmanip/parser.py:118-129 | computes the component after the variables loop: each normalised attribute map stored under its name, or the KeyError of the first nameless `<variable>` |
| Extraction.VariablesStored | cellmlmanip/parser.py:118-129 | the store succeeds iff every `<variable>` has a name; each record is its normalised attributes stored under its name, the last of a name winning; other variables and everything else about the component are unchanged |
| CellmlParser.Parser.AddVariables | cellmlmanip/parser.py:118-129 | the loop renaming cmeta:id and storing by name computes VariablesAdded, including the KeyError on a nameless variable |
| Extraction.PairedExact | cellmlmanip/parser.py:147-149 | one connection per variable pair, in order: the k-th joins the k-th pair's variables across the two mapped components |
| Extraction.FlattenOne | cellmlmanip/parser.py:136-149 | computes one pass of the outer connection loop: rebind map_component from the connection's `<map_components>`, then append one connection per `<map_variables>` or raise UnboundLocalError |
| Extraction.Flatten | cellmlmanip/parser.py:134-149 | computes the whole connection loop as FlattenOne over the `<connection>` elements in order, stopping at the first error |
| Extraction.FlattenCount | cellmlmanip/parser.py:134-149 | without an error, exactly one connection is appended per `<map_variables>`, and never more |
| Extraction.FlattenAppend | cellmlmanip/parser.py:136-149 | connections of later `<connection>` elements follow those of earlier ones, continuing from the map_component the earlier ones left bound |
| Extraction.FlattenFailed | cellmlmanip/parser.py:136-149 | once a `<connection>` has raised UnboundLocalError, later ones change nothing |
| Extraction.OwnMapComponentsWins | cellmlmanip/parser.py:139-143 | the last `<map_components>` of a connection decides map_component, whatever was bound before |
| Extraction.OneConnection | cellmlmanip/parser.py:136-149 | a `<connection>` with its own `<map_components>` yields one connection per `<map_variables>` in order, between the components it names |
| CellmlParser.Parser.ScanConnection | cellmlmanip/parser.py:138-146 | the scan of a connection's children yields the binding of its last `<map_components>` (else the old one) and its variable pairs in order |
| CellmlParser.Parser.AppendConnections | cellmlmanip/parser.py:147-149 | raises iff there are pairs but no bound map_component, appending nothing then; otherwise appends exactly the paired connections |
| CellmlParser.Parser.AddConnection | cellmlmanip/parser.py:134-149 | the nested loops append exactly what Flatten describes and report its outcome; units and components are unchanged |
| Hierarchy.Link | cellmlmanip/parser.py:182-185 | computes add_encapsulated and set_parent below a truthy parent; never adds or removes components |
| Hierarchy.RegisterSibling | cellmlmanip/parser.py:193-195 | computes add_sibling of each other, distinct name to one component; never adds or removes components |
| Hierarchy.RegisterSiblings | cellmlmanip/parser.py:191-195 | computes the product loop over the siblings list; never adds or removes components |
| Hierarchy.HandleRefs | cellmlmanip/parser.py:172-188 | computes the loop over a tag's `<component_ref>` children: link each, then recurse into it; never adds or removes components |
| Hierarchy.HandleRef | cellmlmanip/parser.py:167-195 | computes __handle_component_ref: the refs loop, then the sibling registration; never adds or removes components |
| Hierarchy.Edges | cellmlmanip/parser.py:167-188 | the (parent, child) pairs of every `<component_ref>` nested below a named parent, the relation add_encapsulated and set_parent record |
| Hierarchy.SiblingPairs | cellmlmanip/parser.py:167-195 | the ordered pairs of distinct children of each named parent with more than one `<component_ref>`, the relation add_sibling records |
| Hierarchy.Effect | cellmlmanip/parser.py:167-195 | a walk's result relative to its start: the same components and variables, encapsulated and siblings grown by exactly the given pairs, and a parent replaced only where an edge enters |
| Hierarchy.ChildNames | cellmlmanip/parser.py:169-179 | the siblings list holds each `<component_ref>`'s component attribute, in order |
| Hierarchy.LinkEffect | cellmlmanip/parser.py:182-185 | below a truthy parent a ref adds the one edge parent to child (child in encapsulated, parent set); below None it changes nothing |
| Hierarchy.RegisterSiblingEffect | cellmlmanip/parser.py:193-195 | one component gains as siblings exactly the other, distinct names of the list |
| Hierarchy.RegisterSiblingsEffect | cellmlmanip/parser.py:191-195 | the product loop records exactly the ordered pairs of distinct siblings and nothing else |
| Hierarchy.PairsOfMember | cellmlmanip/parser.py:193-194 | a pair is recorded iff its first name is among the firsts, its second among the others, and they differ |
| Hierarchy.SiblingPhaseEffect | cellmlmanip/parser.py:190-195 | siblings are registered only below a truthy parent with more than one child |
| Hierarchy.HandleRefsEffect | cellmlmanip/parser.py:172-188 | the loop over the refs records exactly their link edges and the relations of the walks below them |
| Hierarchy.HandleRefEffect | cellmlmanip/parser.py:167-195 | the whole walk records exactly Edges and SiblingPairs of the tree below the tag; variables never change and a component's parent changes only if an edge enters it |
| Hierarchy.ChildEdge | cellmlmanip/parser.py:182-185 | a `<component_ref>` directly below a named parent becomes that parent's child |
| Hierarchy.SiblingPairsSymmetric | cellmlmanip/parser.py:190-195 | no component is its own sibling, and the recorded sibling pairs are symmetric |
| Hierarchy.SiblingsShareParent | cellmlmanip/parser.py:182-195 | two siblings are children of one and the same parent |
| Hierarchy.RelationsKnown | cellmlmanip/parser.py:182-195 | every recorded name is a known component |
| Hierarchy.HandleRefKeepsSiblingsSymmetric | cellmlmanip/parser.py:190-195 | the walk keeps siblings mutual, irreflexive and known |
| Hierarchy.EffectKeepsSiblingsSymmetric | cellmlmanip/parser.py:190-195 | adding sibling pairs that are known, distinct and recorded both ways keeps every component's siblings mutual and irreflexive |
| Hierarchy.GroupHierarchy | cellmlmanip/parser.py:164-195 | from a hierarchy-free start, with no component encapsulated twice, a group's walk leaves parent and encapsulated agreeing both ways and siblings symmetric |
| Hierarchy.EffectParentsAgree | cellmlmanip/parser.py:182-185 | recording single-parent edges on a hierarchy-free map leaves parent and encapsulated agreeing in both directions |
| Hierarchy.Relationships | cellmlmanip/parser.py:151-165 | computes __add_relationships: the groups applied in order, stopping at the first that fails its assertion |
| Hierarchy.ApplyGroup | cellmlmanip/parser.py:155-165 | a group passes iff it has one relationship_ref, fails with its count otherwise; only encapsulation groups change the components |
| Hierarchy.ApplyGroupEffect | cellmlmanip/parser.py:161-165 | an encapsulation group records its tree's edges and sibling pairs; any other relationship leaves every component unchanged |
| Hierarchy.RelationshipsUpTo | cellmlmanip/parser.py:151-165 | the groups never add or remove components |
| Hierarchy.RelationshipsPass | cellmlmanip/parser.py:155-160 | __add_relationships passes iff every `<group>` has exactly one `<relationship_ref>` |
| Hierarchy.RelationshipsFail | cellmlmanip/parser.py:155-165 | a failure names the count of a `<group>` without exactly one `<relationship_ref>`; every group before it passed, and the components are those left by those groups |
| Hierarchy.RelationshipsEffect | cellmlmanip/parser.py:151-195 | when no group has failed, the components are exactly the start plus the edges and sibling pairs of all the encapsulation groups, with variables unchanged |
| Hierarchy.RelationshipsHierarchy | cellmlmanip/parser.py:151-195 | from a hierarchy-free start, with no component encapsulated twice across the groups, the whole pass, also one stopped by a failing group, leaves parent and encapsulated agreeing both ways and siblings symmetric |
| Hierarchy.RelationshipsKeepSiblingsSymmetric | cellmlmanip/parser.py:151-195 | all the groups together keep siblings mutual and irreflexive |
| CellmlParser.Parser.AddRelationships | cellmlmanip/parser.py:151-165 | the loop over groups leaves the components and outcome Relationships describes |
| CellmlParser.Parser.VisitGroup | cellmlmanip/parser.py:157-165 | one `<group>`: fails with the count when it has not exactly one `<relationship_ref>`, walks it when the relationship is encapsulation, and otherwise changes nothing, as ApplyGroup describes |
| CellmlParser.Parser.HandleComponentRef | cellmlmanip/parser.py:167-195 | the recursive walk with its siblings list leaves the components HandleRef describes |
| CellmlParser.Parser.VisitComponentRef | cellmlmanip/parser.py:175-188 | one `<component_ref>`: linking it below the parent and descending into it extends the walk over the earlier refs by one |
| CellmlParser.Parser.LinkComponents | cellmlmanip/parser.py:182-185 | add_encapsulated and set_parent on the component map perform Link |
| CellmlParser.Parser.RegisterSiblingPairs | cellmlmanip/parser.py:190-195 | the nested product loop performs RegisterSiblings |
| Units.Resolve | cellmlmanip/units.py:87-110 | computes get_quantity on the abstract store: define a pending custom unit first, then look the name up |
| Units.Lookup | cellmlmanip/units.py:105-110 | computes the parse_expression step: the unit's string if the registry knows the name, else UnknownUnit |
| Units.MakeUpTo | cellmlmanip/units.py:118-134 | computes the first n passes of the `<unit>` loop: resolve the referenced unit, format the fragment, append it |
| Units.Make | cellmlmanip/units.py:112-141 | computes _make_cellml_unit: the loop over all `<unit>` elements, then the definition string |
| Units.FormatFragment | cellmlmanip/units.py:125-131 | computes one fragment: the prefix prepended, then "((...)**e)" around it when there is an exponent |
| Units.Join | cellmlmanip/units.py:137 | computes '*'.join of the fragments |
| Units.DefinitionText | cellmlmanip/units.py:141 | computes '<name> = <joined fragments>' |
| Units.UnitStore.constructor | cellmlmanip/units.py:67-85 | the registry knows Pint's units plus katal and kat with katal's definition; cellml_definitions is the argument, or empty for None; cellml_defined is empty; the store invariant holds |
| Units.UnitStore.GetQuantity | cellmlmanip/units.py:87-110 | get_quantity changes the store and returns exactly as Resolve describes |
| Units.UnitStore.MakeCellmlUnit | cellmlmanip/units.py:112-141 | the loop over `<unit>` elements changes the store and returns the definition string exactly as Make describes |
| Units.ResolveFrame | cellmlmanip/units.py:87-110 | get_quantity keeps the store invariant and only adds; it defines only custom units not already being resolved; it succeeds iff the registry knows the name afterwards, returning that unit's string; a name that is not a pending custom unit changes nothing; a name neither known nor custom fails with UnknownUnit |
| Units.MakeFrame | cellmlmanip/units.py:115-122 | building a definition keeps the invariant and only adds; on success there is one fragment per `<unit>` and every unit referenced is known |
| Units.MakeFragments | cellmlmanip/units.py:118-134 | on success the k-th fragment is the k-th `<unit>`'s prefix and exponent applied to str(get_quantity(units)) of the unit it names, in declaration order |
| Units.Memoised | cellmlmanip/units.py:93-110 | once a name has resolved, asking again returns the same unit and changes nothing |
| Units.ResolveValue | cellmlmanip/units.py:105-108 | whatever get_quantity returns on success is str() of the unit asked for |
| Units.DefinesCustomUnit | cellmlmanip/units.py:93-141 | when get_quantity succeeds on a custom unit not yet known (ResolveSucceeds says when it does), the unit is registered exactly once, with '<name> = <fragments joined by *>' where the k-th fragment is the formatted string of the k-th `<unit>`'s resolved unit, after every unit it references has been resolved, and joins cellml_defined; every unit reached transitively through the units references of custom units the store expands is known afterwards, and defined if it was pending |
| Units.ClosedAfterDefine | cellmlmanip/units.py:100-103 | defining a unit whose references are all known keeps the invariant that every defined custom unit's references are known |
| Units.ChainKnown | cellmlmanip/units.py:100-122 | a store that knows the start of a chain of units references through expanded custom units knows its end |
| Units.ChainsKnown | cellmlmanip/units.py:100-122 | every chain from a name the grown store knows ends at a known unit, which is defined if it was pending before |
| Units.RankedGrows | cellmlmanip/units.py:93-110 | the absence of reference cycles within a set of not-yet-known custom units survives get_quantity, which only adds known names |
| Units.KnownResolves | cellmlmanip/units.py:95-110 | a name the registry already knows resolves to its unit and changes nothing |
| Units.ResolveSucceeds | cellmlmanip/units.py:93-110 | get_quantity succeeds on every known name. It also succeeds on every custom name whose references, followed through a set of custom units closed under those references, all have a units attribute and reach no cycle. Custom units declared later are included, and definitions outside that set (other cycles, base-unit markers) do not matter |
| Units.MakeSucceeds | cellmlmanip/units.py:118-134 | under the same conditions every `<unit>` of a pending custom unit resolves, so its definition string is built |
| Units.UnreachedDefinitionsIgnored | cellmlmanip/units.py:93-110 | a unit defined as `second` resolves beside a self-referencing unit and a base-unit marker, which get_quantity never looks at |
| Units.RegistersCustomUnit | cellmlmanip/units.py:93-141 | a pending custom unit whose references, followed through such a closed set, reach no cycle is registered: get_quantity returns it, it joins cellml_defined, and the registry holds '<name> = <fragments>' with the j-th fragment formatting the j-th `<unit>`'s resolved unit |
| Units.SelfReferenceRecursion | cellmlmanip/units.py:93-122 | a custom unit whose one `<unit>` names itself ends in RecursionError and leaves the store as it was |
| Units.UnknownUnitMessage | cellmlmanip/units.py:93-110 | a name that is neither a custom definition nor known to the registry leaves the store unchanged and fails with the ValueError whose message quotes exactly that name |
| Units.FragmentKeepsUnit | cellmlmanip/units.py:125-131 | a fragment holds the unit string intact right after the prefix, with the exponent's "((...)**e)" around both |
| Units.JoinLength | cellmlmanip/units.py:134-137 | '*'.join puts exactly one separator between consecutive fragments |
| Units.JoinConcat | cellmlmanip/units.py:134-137 | joining keeps fragments in declaration order: the join of two lists is their joins around one separator |

## Left out

- cellmlmanip/model.py is not part of this model. `Component.add_encapsulated` and `add_sibling` are
  modelled as adding to a set, and `set_parent` as replacing the parent. A component is a value record
  in a map that the methods reassign, not an object updated in place.
- CellmlParser.Parser.HandleComponentRef: requires every component lookup to succeed
  (`WellReferenced`). The source raises `KeyError` on an unknown component name, and that error path is
  not modelled. The same requirement that every looked-up name is a component is carried by
  `Hierarchy.Link`, `Hierarchy.RegisterSibling`, `Hierarchy.RegisterSiblings`, `Hierarchy.HandleRef`,
  `Hierarchy.HandleRefs`, `Hierarchy.ApplyGroup`, `Hierarchy.RelationshipsUpTo`, `Hierarchy.Relationships`,
  `CellmlParser.Parser.VisitGroup`, `CellmlParser.Parser.VisitComponentRef`,
  `CellmlParser.Parser.LinkComponents` and `CellmlParser.Parser.RegisterSiblingPairs`. It is stated as
  `WellReferenced`, as `GroupsWellReferenced`, or as explicit membership in the component map.
- CellmlParser.Parser.AddRelationships: requires every encapsulation `<group>` to be well referenced,
  including groups after a failing one that the source never walks.
- `parse`, `__add_components`, `__add_maths` and `__add_rdf` are not modelled. They cover component
  creation, MathML translation through SymPy, and RDF serialisation through lxml. XML parsing itself is
  also not modelled.
- Units.UnitStore.GetQuantity: takes the set of names being resolved further up the call stack as an
  extra argument, in place of Python's stack depth. A repeated name fails at once with `Recursion`
  instead of after a thousand calls.
- The Pint registry is abstracted as a set of names plus a map of definition strings:
  - `parse_expression` is name membership, so expressions and prefixed names are not parsed;
  - `define` never fails;
  - the built-in names are a parameter;
  - `str()` of a resolved unit is the abstract function `unitStr`;
  - `get_quantity` returns that string where the source returns the Pint unit.
- `CELLML_UNITS` is not used by the modelled operations and is left out. So are `one_of_unit`,
  `is_unit_equal`, `is_quantity_equal`, `convert_to`, `get_conversion_factor`, `summarise_units`
  and the SymPy printer classes, which deal with floating-point magnitudes and `eval`.
- Logging is not modelled.
