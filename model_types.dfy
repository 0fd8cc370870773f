/**
 * The records the CellML parser fills in and the errors it raises, shared by
 * the modules that describe its steps.
 */
module ModelTypes {
  import opened Wrappers
  import opened Xml

  /**
   * What the parser records about one component. The Component class lives in
   * model.py; add_encapsulated and add_sibling add a name to a set and
   * set_parent replaces the parent.
   */
  datatype ComponentRecord = ComponentRecord(
    parent: Option<string>,
    encapsulated: set<string>,
    siblings: set<string>,
    variables: map<string, Attrs>)

  type Components = map<string, ComponentRecord>

  /** The errors the parser raises. */
  datatype ParseError =
    | RelationshipRefCount(count: nat)   // AssertionError: a <group> without exactly one <relationship_ref>
    | UnboundMapComponents               // UnboundLocalError: <map_variables> before any <map_components>
    | MissingVariableName                // KeyError: a <variable> without a name attribute
}
