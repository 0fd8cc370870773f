/**
 * The unit store of units.py: a Pint unit registry, abstracted as the set of
 * names it can resolve and the definition strings it has been given, plus
 * the custom <units> definitions collected from a CellML model, which are
 * turned into registry definitions lazily, the first time a name is asked for.
 */
module Units {
  import opened Wrappers
  import opened Xml
  import opened Extraction

  /** The Pint registry: the unit names it resolves, and each definition string it was given. */
  datatype Registry = Registry(known: set<string>, definitions: map<string, string>) {
    /** ureg.define: `name` (and its aliases) resolve from now on. */
    function Define(name: string, aliases: set<string>, text: string): Registry {
      Registry(known + {name} + aliases, definitions[name := text])
    }
  }

  /** __add_undefined_units: the one unit CellML needs that Pint lacks. */
  const KatalDefinition := "katal = mol / second = kat"

  /** The mutable part of a UnitStore: the registry and cellml_defined. */
  datatype Store = Store(registry: Registry, defined: set<string>)

  /**
   * What a UnitStore resolves against: cellml_definitions, and str() of a
   * resolved Pint unit, which depends on Pint's own naming and is left abstract.
   */
  datatype Env = Env(definitions: UnitsMap, unitStr: string -> string)

  datatype UnitError =
    | UnknownUnit(name: string)       // ValueError from get_quantity
    | MissingUnits(name: string)      // KeyError: a <unit> of `name` without a units attribute
    | Recursion(name: string)         // RecursionError: `name` is defined in terms of itself
  {
    /** The text of the ValueError get_quantity raises for an unknown name. */
    function Message(): string
      requires UnknownUnit?
    {
      "Cannot find the unit with name \"" + name + "\""
    }
  }

  /** The names of the custom definitions (a <units> without a name can never be asked for). */
  function CustomNames(definitions: UnitsMap): set<string> {
    set k | k in definitions && k.Some? :: k.value
  }

  // ---------------------------------------------------------------------------
  // The definition string built by _make_cellml_unit

  /** One <unit>: the prefix glued to the unit's string, then the exponent around both. */
  function FormatFragment(unitString: string, unit: Attrs): string {
    var prefixed := if "prefix" in unit then unit["prefix"] + unitString else unitString;
    if "exponent" in unit then "((" + prefixed + ")**" + unit["exponent"] + ")" else prefixed
  }

  /** '*'.join(parts) */
  function Join(parts: seq<string>): string
    decreases |parts|
  {
    if parts == [] then ""
    else if |parts| == 1 then parts[0]
    else Join(parts[..|parts| - 1]) + "*" + parts[|parts| - 1]
  }

  /** The Pint definition string '<name> = <fragments joined by *>'. */
  function DefinitionText(name: string, fragments: seq<string>): string {
    name + " = " + Join(fragments)
  }

  // ---------------------------------------------------------------------------
  // get_quantity and _make_cellml_unit as functions of the store

  /**
   * get_quantity(name) from store `s`; `resolving` holds the custom names whose
   * definitions are being built further up the call stack. Asking again for one
   * of them is the unbounded recursion that ends in RecursionError.
   */
  function Resolve(env: Env, s: Store, name: string, resolving: set<string>): (Store, Result<string, UnitError>)
    decreases CustomNames(env.definitions) - resolving, 0, 0
  {
    if Some(name) in env.definitions && name !in s.defined && name !in s.registry.known then
      if name in resolving then (s, Failure(Recursion(name)))
      else
        assert name in CustomNames(env.definitions);
        var made := MakeUpTo(env, s, name, resolving + {name}, |env.definitions[Some(name)]|);
        if made.1.Failure? then (made.0, Failure(made.1.error))
        else
          var text := DefinitionText(name, made.1.value);
          Lookup(env, Store(made.0.registry.Define(name, {}, text), made.0.defined + {name}), name)
    else Lookup(env, s, name)
  }

  /** The closing parse_expression of get_quantity. */
  function Lookup(env: Env, s: Store, name: string): (Store, Result<string, UnitError>) {
    (s, if name in s.registry.known then Success(env.unitStr(name)) else Failure(UnknownUnit(name)))
  }

  /** The fragments of the first n <unit> elements of custom unit `name`, resolving each unit in turn. */
  function MakeUpTo(env: Env, s: Store, name: string, resolving: set<string>, n: nat): (Store, Result<seq<string>, UnitError>)
    requires Some(name) in env.definitions && n <= |env.definitions[Some(name)]|
    decreases CustomNames(env.definitions) - resolving, 1, n
  {
    if n == 0 then (s, Success([]))
    else
      var before := MakeUpTo(env, s, name, resolving, n - 1);
      if before.1.Failure? then before
      else
        var unit := env.definitions[Some(name)][n - 1];
        if "units" !in unit then (before.0, Failure(MissingUnits(name)))
        else
          var matched := Resolve(env, before.0, unit["units"], resolving);
          if matched.1.Failure? then (matched.0, Failure(matched.1.error))
          else (matched.0, Success(before.1.value + [FormatFragment(matched.1.value, unit)]))
  }

  /** _make_cellml_unit: the definition string of custom unit `name`, or the error that stopped it. */
  function Make(env: Env, s: Store, name: string, resolving: set<string>): (Store, Result<string, UnitError>)
    requires Some(name) in env.definitions
  {
    var made := MakeUpTo(env, s, name, resolving, |env.definitions[Some(name)]|);
    (made.0, if made.1.Failure? then Failure(made.1.error) else Success(DefinitionText(name, made.1.value)))
  }

  // ---------------------------------------------------------------------------
  // The store object

  class UnitStore {
    var registry: Registry
    var defined: set<string>
    const definitions: UnitsMap
    const unitStr: string -> string

    function State(): Store
      reads this
    {
      Store(registry, defined)
    }

    function Environment(): Env {
      Env(definitions, unitStr)
    }

    /**
     * UnitStore(cellml_def): Pint's own units plus katal (alias kat), the given
     * definitions (none when the argument is None or empty), nothing defined yet.
     */
    constructor (cellmlDef: Option<UnitsMap>, builtins: set<string>, unitStr: string -> string)
      ensures registry == Registry(builtins, map[]).Define("katal", {"kat"}, KatalDefinition)
      ensures definitions == (if cellmlDef.Some? then cellmlDef.value else map[])
      ensures defined == {} && this.unitStr == unitStr
      ensures Valid(Environment(), State())
    {
      registry := Registry(builtins, map[]).Define("katal", {"kat"}, KatalDefinition);
      definitions := if cellmlDef.Some? && cellmlDef.value != map[] then cellmlDef.value else map[];
      defined := {};
      this.unitStr := unitStr;
    }

    /**
     * get_quantity: defines a custom unit the registry does not know yet, then
     * looks the name up. `resolving` is empty for a call from outside.
     */
    method GetQuantity(unitName: string, resolving: set<string>) returns (r: Result<string, UnitError>)
      modifies this
      ensures (State(), r) == Resolve(Environment(), old(State()), unitName, resolving)
      decreases CustomNames(definitions) - resolving, 0
    {
      if Some(unitName) in definitions && unitName !in defined {
        if unitName !in registry.known {
          if unitName in resolving {
            return Failure(Recursion(unitName));
          }
          assert unitName in CustomNames(definitions);
          var unitDefinition := MakeCellmlUnit(unitName, resolving + {unitName});
          if unitDefinition.Failure? {
            return Failure(unitDefinition.error);
          }
          registry := registry.Define(unitName, {}, unitDefinition.value);
          defined := defined + {unitName};
        }
      }
      if unitName in registry.known {
        r := Success(unitStr(unitName));
      } else {
        r := Failure(UnknownUnit(unitName));
      }
    }

    /** _make_cellml_unit: resolves each <unit> of the definition in order and builds the definition string. */
    method MakeCellmlUnit(customUnitName: string, resolving: set<string>) returns (r: Result<string, UnitError>)
      requires Some(customUnitName) in definitions
      modifies this
      ensures (State(), r) == Make(Environment(), old(State()), customUnitName, resolving)
      decreases CustomNames(definitions) - resolving, 1
    {
      var units := definitions[Some(customUnitName)];
      var fullUnitExpr: seq<string> := [];
      for i := 0 to |units|
        invariant MakeUpTo(Environment(), old(State()), customUnitName, resolving, i) == (State(), Success(fullUnitExpr))
      {
        var unit := units[i];
        if "units" !in unit {
          MakeFails(Environment(), old(State()), customUnitName, resolving, i, State(), fullUnitExpr, State(), MissingUnits(customUnitName));
          return Failure(MissingUnits(customUnitName));
        }
        ghost var before := State();
        var matchedUnit := GetQuantity(unit["units"], resolving);
        if matchedUnit.Failure? {
          MakeFails(Environment(), old(State()), customUnitName, resolving, i, before, fullUnitExpr, State(), matchedUnit.error);
          return Failure(matchedUnit.error);
        }
        var expr := matchedUnit.value;
        if "prefix" in unit {
          expr := unit["prefix"] + expr;
        }
        if "exponent" in unit {
          expr := "((" + expr + ")**" + unit["exponent"] + ")";
        }
        assert expr == FormatFragment(matchedUnit.value, unit);
        MakeAdvance(Environment(), old(State()), customUnitName, resolving, i, before, fullUnitExpr, State(), matchedUnit.value);
        fullUnitExpr := fullUnitExpr + [expr];
      }
      return Success(DefinitionText(customUnitName, fullUnitExpr));
    }
  }

  /** A <unit> whose units resolve adds its fragment. */
  lemma MakeAdvance(env: Env, s: Store, name: string, resolving: set<string>, i: nat,
                    before: Store, fragments: seq<string>, after: Store, unitString: string)
    requires Some(name) in env.definitions && i < |env.definitions[Some(name)]|
    requires MakeUpTo(env, s, name, resolving, i) == (before, Success(fragments))
    requires var unit := env.definitions[Some(name)][i];
      "units" in unit && Resolve(env, before, unit["units"], resolving) == (after, Success(unitString))
    ensures MakeUpTo(env, s, name, resolving, i + 1)
      == (after, Success(fragments + [FormatFragment(unitString, env.definitions[Some(name)][i])]))
  {
  }

  /** A <unit> without units, or whose units fail to resolve, ends _make_cellml_unit with that error. */
  lemma MakeFails(env: Env, s: Store, name: string, resolving: set<string>, i: nat,
                  before: Store, fragments: seq<string>, after: Store, error: UnitError)
    requires Some(name) in env.definitions && i < |env.definitions[Some(name)]|
    requires MakeUpTo(env, s, name, resolving, i) == (before, Success(fragments))
    requires var unit := env.definitions[Some(name)][i];
      if "units" in unit then Resolve(env, before, unit["units"], resolving) == (after, Failure(error))
      else after == before && error == MissingUnits(name)
    ensures Make(env, s, name, resolving) == (after, Failure(error))
  {
    MakeStops(env, s, name, resolving, i + 1, |env.definitions[Some(name)]|);
  }

  /** Once a <unit> has failed, the later ones are not looked at. */
  lemma {:induction false} MakeStops(env: Env, s: Store, name: string, resolving: set<string>, i: nat, n: nat)
    requires Some(name) in env.definitions && i <= n <= |env.definitions[Some(name)]|
    requires MakeUpTo(env, s, name, resolving, i).1.Failure?
    ensures MakeUpTo(env, s, name, resolving, n) == MakeUpTo(env, s, name, resolving, i)
    decreases n
  {
    if i < n {
      MakeStops(env, s, name, resolving, i, n - 1);
    }
  }

  // ---------------------------------------------------------------------------
  // Properties

  /**
   * The store invariant: katal is known, the registry holds a definition for
   * katal and for each defined custom unit, and every unit a defined custom
   * unit references is known.
   */
  ghost predicate Valid(env: Env, s: Store) {
    && "katal" in s.registry.known && "kat" in s.registry.known
    && s.registry.definitions.Keys == s.defined + {"katal"}
    && "katal" !in s.defined
    && s.defined <= s.registry.known
    && s.defined <= CustomNames(env.definitions)
    && forall d :: d in s.defined ==> DefinedClosed(env, s.registry.known, d)
  }

  /** Every <unit> of custom unit `d` has a units attribute naming a unit in `known`. */
  ghost predicate DefinedClosed(env: Env, known: set<string>, d: string) {
    && Some(d) in env.definitions
    && forall j :: 0 <= j < |env.definitions[Some(d)]| ==>
      "units" in env.definitions[Some(d)][j] && env.definitions[Some(d)][j]["units"] in known
  }

  /** Defining a unit whose references are all known keeps every defined unit's references known. */
  lemma ClosedAfterDefine(env: Env, m: Store, t: Store, name: string)
    requires forall d :: d in m.defined ==> DefinedClosed(env, m.registry.known, d)
    requires m.registry.known <= t.registry.known && t.defined == m.defined + {name}
    requires Some(name) in env.definitions
    requires forall j :: 0 <= j < |env.definitions[Some(name)]| ==> ReferencedKnown(env, m, name, j)
    ensures forall d :: d in t.defined ==> DefinedClosed(env, t.registry.known, d)
  {
    forall d | d in t.defined
      ensures DefinedClosed(env, t.registry.known, d)
    {
      if d == name {
        forall j | 0 <= j < |env.definitions[Some(d)]|
          ensures "units" in env.definitions[Some(d)][j] && env.definitions[Some(d)][j]["units"] in t.registry.known
        {
          assert ReferencedKnown(env, m, name, j);
        }
      } else {
        assert DefinedClosed(env, m.registry.known, d);
      }
    }
  }

  /** Resolution only adds: names, definitions and defined units stay, and a new name is both defined and known. */
  ghost predicate Grows(s: Store, t: Store) {
    && s.registry.known <= t.registry.known
    && s.defined <= t.defined
    && (forall k :: k in s.registry.definitions ==> k in t.registry.definitions && t.registry.definitions[k] == s.registry.definitions[k])
    && t.defined - s.defined == t.registry.known - s.registry.known
  }

  lemma GrowsTrans(s: Store, t: Store, u: Store)
    requires Grows(s, t) && Grows(t, u)
    ensures Grows(s, u)
  {
    forall k | k in u.defined - s.defined
      ensures k in u.registry.known - s.registry.known
    {
      if k !in t.defined {
        assert k in u.defined - t.defined;
      } else {
        assert k in t.defined - s.defined;
      }
    }
    forall k | k in u.registry.known - s.registry.known
      ensures k in u.defined - s.defined
    {
      if k !in t.registry.known {
        assert k in u.registry.known - t.registry.known;
      } else {
        assert k in t.registry.known - s.registry.known;
      }
    }
  }

  /**
   * get_quantity keeps the store invariant and only adds; the units it defines
   * are custom units not being resolved further up; it succeeds exactly when
   * the registry resolves the name afterwards; and a name that is not a pending
   * custom unit changes nothing, an unknown one failing with ValueError.
   */
  lemma {:induction false} ResolveFrame(env: Env, s: Store, name: string, resolving: set<string>)
    requires Valid(env, s)
    ensures var (t, r) := Resolve(env, s, name, resolving);
      && Valid(env, t) && Grows(s, t)
      && (forall k :: k in t.defined - s.defined ==> k !in resolving)
      && (r.Success? <==> name in t.registry.known)
      && (r.Success? ==> r.value == env.unitStr(name))
      && (Some(name) !in env.definitions || name in s.defined || name in s.registry.known ==> t == s)
      && (Some(name) !in env.definitions && name !in s.registry.known ==> r == Failure(UnknownUnit(name)))
    decreases CustomNames(env.definitions) - resolving, 0, 0
  {
    if Some(name) in env.definitions && name !in s.defined && name !in s.registry.known && name !in resolving {
      assert name in CustomNames(env.definitions);
      var n := |env.definitions[Some(name)]|;
      MakeFrame(env, s, name, resolving + {name}, n);
      var made := MakeUpTo(env, s, name, resolving + {name}, n);
      if made.1.Success? {
        var t := Store(made.0.registry.Define(name, {}, DefinitionText(name, made.1.value)), made.0.defined + {name});
        ClosedAfterDefine(env, made.0, t, name);
        assert Grows(made.0, t);
        GrowsTrans(s, made.0, t);
      }
    }
  }

  /**
   * _make_cellml_unit over the first n <unit> elements keeps the invariant and
   * only adds; on success there is one fragment per <unit>, and every unit they
   * reference is known to the registry.
   */
  lemma {:induction false} MakeFrame(env: Env, s: Store, name: string, resolving: set<string>, n: nat)
    requires Valid(env, s)
    requires Some(name) in env.definitions && n <= |env.definitions[Some(name)]|
    ensures var (t, r) := MakeUpTo(env, s, name, resolving, n);
      && Valid(env, t) && Grows(s, t)
      && (forall k :: k in t.defined - s.defined ==> k !in resolving)
      && (r.Success? ==> |r.value| == n && forall j :: 0 <= j < n ==> ReferencedKnown(env, t, name, j))
    decreases CustomNames(env.definitions) - resolving, 1, n
  {
    if n > 0 {
      MakeFrame(env, s, name, resolving, n - 1);
      var before := MakeUpTo(env, s, name, resolving, n - 1);
      var unit := env.definitions[Some(name)][n - 1];
      if before.1.Success? && "units" in unit {
        ResolveFrame(env, before.0, unit["units"], resolving);
        var matched := Resolve(env, before.0, unit["units"], resolving);
        GrowsTrans(s, before.0, matched.0);
        if matched.1.Success? {
          forall j | 0 <= j < n
            ensures ReferencedKnown(env, matched.0, name, j)
          {
            if j < n - 1 {
              assert ReferencedKnown(env, before.0, name, j);
            }
          }
        }
      }
    }
  }

  /**
   * What _make_cellml_unit builds: on success, the j-th fragment is the j-th
   * <unit>'s prefix and exponent formatting of str() of the unit its units
   * attribute names, in declaration order.
   */
  lemma {:induction false} MakeFragments(env: Env, s: Store, name: string, resolving: set<string>, n: nat)
    requires Some(name) in env.definitions && n <= |env.definitions[Some(name)]|
    ensures var r := MakeUpTo(env, s, name, resolving, n).1;
      var units := env.definitions[Some(name)];
      r.Success? ==> |r.value| == n && forall j :: 0 <= j < n ==>
        "units" in units[j] && r.value[j] == FormatFragment(env.unitStr(units[j]["units"]), units[j])
    decreases n
  {
    if n > 0 {
      MakeFragments(env, s, name, resolving, n - 1);
      var before := MakeUpTo(env, s, name, resolving, n - 1);
      var unit := env.definitions[Some(name)][n - 1];
      if before.1.Success? && "units" in unit {
        ResolveValue(env, before.0, unit["units"], resolving);
      }
    }
  }

  /** Whatever get_quantity returns on success is str() of the unit asked for. */
  lemma ResolveValue(env: Env, s: Store, name: string, resolving: set<string>)
    ensures var r := Resolve(env, s, name, resolving).1;
      r.Success? ==> r.value == env.unitStr(name)
  {
  }

  /** The j-th <unit> of custom unit `name` has a units attribute the registry resolves. */
  ghost predicate ReferencedKnown(env: Env, s: Store, name: string, j: nat)
    requires Some(name) in env.definitions
  {
    j < |env.definitions[Some(name)]| && "units" in env.definitions[Some(name)][j]
    && env.definitions[Some(name)][j]["units"] in s.registry.known
  }

  /** get_quantity is memoised: once a name has resolved, asking again returns the same unit and changes nothing. */
  lemma Memoised(env: Env, s: Store, name: string, resolving: set<string>, again: set<string>)
    requires Valid(env, s) && Resolve(env, s, name, resolving).1.Success?
    ensures var t := Resolve(env, s, name, resolving).0;
      Resolve(env, t, name, again) == (t, Resolve(env, s, name, resolving).1)
  {
    ResolveFrame(env, s, name, resolving);
  }

  /**
   * A custom unit the registry does not know yet is registered exactly once:
   * its definition string is '<name> = <fragments>', one fragment per <unit>
   * in order, each formatting str() of the unit it references, every unit it
   * references is known by then, and it joins cellml_defined. Transitively,
   * every unit reached from it through units references of custom units the
   * store builds is known afterwards, and defined if it was pending before.
   */
  lemma DefinesCustomUnit(env: Env, s: Store, name: string, resolving: set<string>)
    requires Valid(env, s)
    requires Some(name) in env.definitions && name !in s.defined && name !in s.registry.known && name !in resolving
    requires Resolve(env, s, name, resolving).1.Success?
    ensures var t := Resolve(env, s, name, resolving).0;
      var units := env.definitions[Some(name)];
      var made := MakeUpTo(env, s, name, resolving + {name}, |units|);
      && made.1.Success? && |made.1.value| == |units|
      && name in t.defined && t.registry.definitions[name] == DefinitionText(name, made.1.value)
      && t.defined == made.0.defined + {name}
      && (forall j :: 0 <= j < |units| ==> "units" in units[j] && units[j]["units"] in t.registry.known)
      && (forall j :: 0 <= j < |units| ==> made.1.value[j] == FormatFragment(env.unitStr(units[j]["units"]), units[j]))
      && forall p :: Chain(env, s, p) && p[0] == name ==>
        p[|p| - 1] in t.registry.known && (p[|p| - 1] !in s.registry.known ==> p[|p| - 1] in t.defined)
  {
    var units := env.definitions[Some(name)];
    ResolveFrame(env, s, name, resolving);
    var t := Resolve(env, s, name, resolving).0;
    ChainsKnown(env, s, t, name);
    MakeFrame(env, s, name, resolving + {name}, |units|);
    MakeFragments(env, s, name, resolving + {name}, |units|);
    var made := MakeUpTo(env, s, name, resolving + {name}, |units|);
    forall j | 0 <= j < |units|
      ensures "units" in units[j] && units[j]["units"] in t.registry.known
    {
      assert ReferencedKnown(env, made.0, name, j);
    }
  }

  // ---------------------------------------------------------------------------
  // When get_quantity succeeds

  /**
   * A <unit> of custom unit `c` names, in its units attribute, a unit the
   * registry knows or a custom unit of `scope` ranked below `c`.
   */
  ghost predicate RefBelow(env: Env, known: set<string>, rank: string -> nat, scope: set<string>, c: string, unit: Attrs) {
    "units" in unit
    && (unit["units"] in known
        || (Some(unit["units"]) in env.definitions && unit["units"] in scope && rank(unit["units"]) < rank(c)))
  }

  /** Every <unit> of custom unit `c` refers below it. */
  ghost predicate WellRanked(env: Env, known: set<string>, rank: string -> nat, scope: set<string>, c: string)
    requires Some(c) in env.definitions
  {
    forall j :: 0 <= j < |env.definitions[Some(c)]| ==> RefBelow(env, known, rank, scope, c, env.definitions[Some(c)][j])
  }

  /**
   * The custom definitions in `scope` that the registry does not know yet are
   * free of cycles: every units reference they make is to a known unit or to
   * a unit of `scope` of lower `rank`, and none of their <unit> elements lacks
   * its units attribute. Definitions outside `scope` may be anything.
   */
  ghost predicate Ranked(env: Env, s: Store, rank: string -> nat, scope: set<string>) {
    forall c :: c in scope && Some(c) in env.definitions && c !in s.registry.known ==>
      WellRanked(env, s.registry.known, rank, scope, c)
  }

  /** Freedom from cycles survives resolution, which only adds known names. */
  lemma RankedGrows(env: Env, s: Store, t: Store, rank: string -> nat, scope: set<string>)
    requires Ranked(env, s, rank, scope) && Grows(s, t)
    ensures Ranked(env, t, rank, scope)
  {
    forall c | c in scope && Some(c) in env.definitions && c !in t.registry.known
      ensures WellRanked(env, t.registry.known, rank, scope, c)
    {
      assert WellRanked(env, s.registry.known, rank, scope, c);
      forall j | 0 <= j < |env.definitions[Some(c)]|
        ensures RefBelow(env, t.registry.known, rank, scope, c, env.definitions[Some(c)][j])
      {
        assert RefBelow(env, s.registry.known, rank, scope, c, env.definitions[Some(c)][j]);
      }
    }
  }

  /**
   * get_quantity succeeds on a known name, and on a custom name of `scope`
   * whose references, followed through `scope`, reach no cycle and no missing
   * units attribute, provided the names being resolved further up all rank
   * above it (at the top, none are).
   */
  lemma {:induction false} ResolveSucceeds(env: Env, s: Store, name: string, resolving: set<string>, rank: string -> nat, scope: set<string>)
    requires Valid(env, s) && Ranked(env, s, rank, scope)
    requires name in s.registry.known
          || (name in scope && Some(name) in env.definitions && forall x :: x in resolving ==> rank(x) > rank(name))
    ensures Resolve(env, s, name, resolving).1.Success?
    decreases rank(name), 1, 0
  {
    if name in s.registry.known {
      KnownResolves(env, s, name, resolving);
    } else {
      assert name !in resolving;
      var n := |env.definitions[Some(name)]|;
      MakeSucceeds(env, s, name, resolving + {name}, rank, scope, n);
    }
  }

  /** A name the registry knows resolves, whatever is being resolved further up. */
  lemma KnownResolves(env: Env, s: Store, name: string, resolving: set<string>)
    requires Valid(env, s) && name in s.registry.known
    ensures Resolve(env, s, name, resolving) == (s, Success(env.unitStr(name)))
  {
  }

  /** Under the same conditions every <unit> of a pending custom unit resolves, so its definition is built. */
  lemma {:induction false} MakeSucceeds(env: Env, s: Store, name: string, resolving: set<string>, rank: string -> nat, scope: set<string>, n: nat)
    requires Valid(env, s) && Ranked(env, s, rank, scope)
    requires name in scope && Some(name) in env.definitions && name !in s.registry.known
    requires n <= |env.definitions[Some(name)]|
    requires forall x :: x in resolving ==> rank(x) >= rank(name)
    ensures MakeUpTo(env, s, name, resolving, n).1.Success?
    decreases rank(name), 0, n
  {
    if n > 0 {
      MakeSucceeds(env, s, name, resolving, rank, scope, n - 1);
      MakeFrame(env, s, name, resolving, n - 1);
      var before := MakeUpTo(env, s, name, resolving, n - 1);
      RankedGrows(env, s, before.0, rank, scope);
      var unit := env.definitions[Some(name)][n - 1];
      assert WellRanked(env, s.registry.known, rank, scope, name);
      assert RefBelow(env, before.0.registry.known, rank, scope, name, unit) by {
        assert RefBelow(env, s.registry.known, rank, scope, name, unit);
      }
      if unit["units"] in before.0.registry.known {
        KnownResolves(env, before.0, unit["units"], resolving);
      } else {
        ResolveSucceeds(env, before.0, unit["units"], resolving, rank, scope);
      }
      MakeStep(env, s, name, resolving, n);
    }
  }

  /** One more <unit> succeeds when the ones before it did and its units resolve. */
  lemma MakeStep(env: Env, s: Store, name: string, resolving: set<string>, n: nat)
    requires Some(name) in env.definitions && 0 < n <= |env.definitions[Some(name)]|
    requires var before := MakeUpTo(env, s, name, resolving, n - 1);
      var unit := env.definitions[Some(name)][n - 1];
      && before.1.Success? && "units" in unit
      && Resolve(env, before.0, unit["units"], resolving).1.Success?
    ensures MakeUpTo(env, s, name, resolving, n).1.Success?
  {
  }

  /**
   * A pending custom unit whose references reach no cycle is registered:
   * get_quantity returns its unit, it joins cellml_defined, and the registry
   * holds '<name> = <fragments>', the j-th fragment formatting str() of the
   * unit the j-th <unit> references.
   */
  lemma RegistersCustomUnit(env: Env, s: Store, name: string, rank: string -> nat, scope: set<string>)
    requires Valid(env, s) && Ranked(env, s, rank, scope)
    requires name in scope && Some(name) in env.definitions && name !in s.registry.known
    ensures var (t, r) := Resolve(env, s, name, {});
      var units := env.definitions[Some(name)];
      var made := MakeUpTo(env, s, name, {name}, |units|);
      && r == Success(env.unitStr(name))
      && name in t.defined && name in t.registry.known
      && made.1.Success? && t.registry.definitions[name] == DefinitionText(name, made.1.value)
      && |made.1.value| == |units|
      && forall j :: 0 <= j < |units| ==>
        "units" in units[j] && made.1.value[j] == FormatFragment(env.unitStr(units[j]["units"]), units[j])
  {
    ResolveSucceeds(env, s, name, {}, rank, scope);
    ResolveFrame(env, s, name, {});
    assert {} + {name} == {name};
    DefinesCustomUnit(env, s, name, {});
  }

  /**
   * Definitions get_quantity never reaches do not matter: with `a` defined as
   * `second`, `a` resolves beside a unit `c` defined in terms of itself and a
   * base unit `b`, whose stored <unit> list has no units attribute.
   */
  lemma UnreachedDefinitionsIgnored(env: Env, s: Store)
    requires Valid(env, s) && "second" in s.registry.known && "a" !in s.registry.known
    requires env.definitions == map[Some("a") := [map["units" := "second"]],
                                    Some("c") := [map["units" := "c"]],
                                    Some("b") := [map["base_units" := "yes"]]]
    ensures Resolve(env, s, "a", {}).1.Success?
  {
    var rank: string -> nat := x => 0;
    forall c | c in {"a"} && Some(c) in env.definitions && c !in s.registry.known
      ensures WellRanked(env, s.registry.known, rank, {"a"}, c)
    {
      assert c == "a";
      assert RefBelow(env, s.registry.known, rank, {"a"}, c, env.definitions[Some(c)][0]);
    }
    ResolveSucceeds(env, s, "a", {}, rank, {"a"});
  }

  /**
   * A custom unit defined in terms of itself ends in RecursionError, leaving
   * the store as it found it.
   */
  lemma SelfReferenceRecursion(env: Env, s: Store, name: string, unit: Attrs)
    requires Valid(env, s) && name !in s.registry.known
    requires "units" in unit && unit["units"] == name
    requires Some(name) in env.definitions && env.definitions[Some(name)] == [unit]
    ensures Resolve(env, s, name, {}) == (s, Failure(Recursion(name)))
  {
    assert name in CustomNames(env.definitions);
    assert MakeUpTo(env, s, name, {name}, 0) == (s, Success([]));
    assert Resolve(env, s, name, {name}) == (s, Failure(Recursion(name)));
    assert MakeUpTo(env, s, name, {name}, 1) == (s, Failure(Recursion(name)));
    assert {} + {name} == {name};
  }

  /** `b` is the units attribute of one of the <unit> elements of custom unit `a`. */
  ghost predicate RefersTo(env: Env, a: string, b: string) {
    && Some(a) in env.definitions
    && (exists j :: 0 <= j < |env.definitions[Some(a)]| && "units" in env.definitions[Some(a)][j]
                    && env.definitions[Some(a)][j]["units"] == b)
  }

  /**
   * A chain of units references in which every unit but the last is one the
   * store builds from its CellML definition: defined already, or unknown to
   * the registry (a custom name Pint knows on its own is never expanded).
   */
  ghost predicate Chain(env: Env, s: Store, p: seq<string>) {
    |p| > 0
    && forall i :: 0 <= i < |p| - 1 ==>
      RefersTo(env, p[i], p[i + 1]) && (p[i] in s.defined || p[i] !in s.registry.known)
  }

  /** A store that grew from `s` and knows the start of a chain knows its end. */
  lemma {:induction false} ChainKnown(env: Env, s: Store, t: Store, p: seq<string>)
    requires Valid(env, t) && Grows(s, t) && Chain(env, s, p) && p[0] in t.registry.known
    ensures p[|p| - 1] in t.registry.known
    decreases |p|
  {
    if |p| > 1 {
      var q := p[..|p| - 1];
      assert Chain(env, s, q) by {
        forall i | 0 <= i < |q| - 1
          ensures RefersTo(env, q[i], q[i + 1]) && (q[i] in s.defined || q[i] !in s.registry.known)
        {
          assert q[i] == p[i] && q[i + 1] == p[i + 1];
        }
      }
      ChainKnown(env, s, t, q);
      var i := |p| - 2;
      var a := p[i];
      assert a == q[|q| - 1];
      assert RefersTo(env, p[i], p[i + 1]) && (p[i] in s.defined || p[i] !in s.registry.known);
      if a !in s.defined {
        assert a in t.registry.known - s.registry.known;
      }
      assert a in t.defined;
      assert DefinedClosed(env, t.registry.known, a);
    }
  }

  /** Every chain from a name the grown store knows ends at a known unit, defined if it was pending. */
  lemma ChainsKnown(env: Env, s: Store, t: Store, name: string)
    requires Valid(env, t) && Grows(s, t) && name in t.registry.known
    ensures forall p :: Chain(env, s, p) && p[0] == name ==>
      p[|p| - 1] in t.registry.known && (p[|p| - 1] !in s.registry.known ==> p[|p| - 1] in t.defined)
  {
    forall p | Chain(env, s, p) && p[0] == name
      ensures p[|p| - 1] in t.registry.known && (p[|p| - 1] !in s.registry.known ==> p[|p| - 1] in t.defined)
    {
      ChainKnown(env, s, t, p);
      if p[|p| - 1] !in s.registry.known {
        assert p[|p| - 1] in t.registry.known - s.registry.known;
      }
    }
  }

  /**
   * A name that is neither a custom definition nor known to the registry fails
   * with the ValueError, leaving the store alone, and its message quotes the
   * name it was given.
   */
  lemma UnknownUnitMessage(env: Env, s: Store, name: string, resolving: set<string>)
    requires Some(name) !in env.definitions && name !in s.registry.known
    ensures var (t, r) := Resolve(env, s, name, resolving);
      var lead := "Cannot find the unit with name \"";
      && t == s && r == Failure(UnknownUnit(name))
      && var m := r.error.Message();
      && |m| == |lead| + |name| + 1
      && m[..|lead|] == lead && m[|lead|..|m| - 1] == name && m[|m| - 1] == '"'
  {
    var lead := "Cannot find the unit with name \"";
    var m := UnknownUnit(name).Message();
    assert m == lead + name + "\"";
    assert m[..|lead|] == lead;
    assert m[|lead|..|m| - 1] == name;
  }
  // ---------------------------------------------------------------------------
  // The definition string

  function TotalLength(parts: seq<string>): nat
    decreases |parts|
  {
    if parts == [] then 0 else TotalLength(parts[..|parts| - 1]) + |parts[|parts| - 1]|
  }

  /** '*'.join puts exactly one separator between consecutive parts. */
  lemma {:induction false} JoinLength(parts: seq<string>)
    requires parts != []
    ensures |Join(parts)| == TotalLength(parts) + |parts| - 1
    decreases |parts|
  {
    if |parts| > 1 {
      JoinLength(parts[..|parts| - 1]);
    }
  }

  /** Joining keeps the parts in order: the join of a concatenation is the two joins around one separator. */
  lemma {:induction false} JoinConcat(a: seq<string>, b: seq<string>)
    requires a != [] && b != []
    ensures Join(a + b) == Join(a) + "*" + Join(b)
    decreases |b|
  {
    if |b| == 1 {
      assert (a + b)[..|a + b| - 1] == a;
    } else {
      var init := b[..|b| - 1];
      JoinConcat(a, init);
      assert (a + b)[..|a + b| - 1] == a + init;
    }
  }

  /**
   * A fragment holds the unit's string intact, directly after the prefix; with
   * an exponent both sit inside the "((...)**e)" wrapping, otherwise the
   * fragment ends with the unit's string.
   */
  lemma FragmentKeepsUnit(unitString: string, unit: Attrs)
    ensures var r := FormatFragment(unitString, unit);
      var p := if "prefix" in unit then unit["prefix"] else "";
      var off := (if "exponent" in unit then 2 else 0) + |p|;
      && off + |unitString| <= |r|
      && r[off - |p|..off] == p
      && r[off..off + |unitString|] == unitString
      && ("exponent" !in unit ==> |r| == off + |unitString|)
      && ("exponent" in unit ==> r[..2] == "((" && r[off + |unitString|..] == ")**" + unit["exponent"] + ")")
  {
    var p := if "prefix" in unit then unit["prefix"] else "";
    var prefixed := p + unitString;
    assert prefixed[..|p|] == p && prefixed[|p|..] == unitString;
    if "exponent" in unit {
      var r := "((" + prefixed + ")**" + unit["exponent"] + ")";
      assert r == "((" + prefixed + (")**" + unit["exponent"] + ")");
      assert r[2..2 + |prefixed|] == prefixed;
    }
  }
}
