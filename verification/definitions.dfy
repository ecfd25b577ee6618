/**
 * The parts of a flow definition the web layer reads: flow-level and
 * activity-local property definitions, activities and the flow itself.
 * Maps keyed by property name are sequences in their iteration order.
 */
module FlowDefinitions {
  import opened Common

  /**
   * A FlowPropertyDefinition: the flow property `name`, the component
   * parameter it is meant for, and its optional validator specification.
   */
  datatype PropertyDef = PropertyDef(name: string, parameterName: string, validators: Option<string>)

  /**
   * A FlowActivity: its stable position in the flow, the component that
   * renders it (null when unset), its activity-local definitions and the
   * `invisible` flag set when its component cannot be resolved.
   */
  datatype Activity = Activity(index: nat, componentName: Option<string>, localDefs: seq<PropertyDef>, invisible: bool)

  /** A Flow: its type name, its activities and its flow-level definitions. */
  datatype Flow = Flow(typeName: string, activities: seq<Activity>, propertyDefs: seq<PropertyDef>)

  /**
   * A definition together with the map it was taken from. Two definitions
   * from different maps are different objects even when their fields agree,
   * which is what the identity comparison in the template engine observes.
   */
  datatype Origin = FromFlow(def: PropertyDef) | FromActivity(def: PropertyDef)

  /** Map.get on a name-keyed definition map. */
  function Lookup(defs: seq<PropertyDef>, name: string): (r: Option<PropertyDef>)
    ensures r.Some? ==> r.value in defs && r.value.name == name
    ensures r.None? <==> forall i :: 0 <= i < |defs| ==> defs[i].name != name
  {
    if |defs| == 0 then None
    else if defs[0].name == name then Some(defs[0])
    else Lookup(defs[1..], name)
  }

  /**
   * FlowActivity.getPropertyDefinition: the activity-local definition of
   * `name` when there is one, otherwise the flow-level one.
   */
  function Governing(a: Activity, flowDefs: seq<PropertyDef>, name: string): (r: Option<Origin>)
    ensures Lookup(a.localDefs, name).Some? ==> r == Some(FromActivity(Lookup(a.localDefs, name).value))
    ensures Lookup(a.localDefs, name).None? ==>
              (r.None? <==> Lookup(flowDefs, name).None?) &&
              (r.Some? ==> r == Some(FromFlow(Lookup(flowDefs, name).value)))
  {
    match Lookup(a.localDefs, name)
    case Some(d) => Some(FromActivity(d))
    case None =>
      match Lookup(flowDefs, name)
      case Some(d) => Some(FromFlow(d))
      case None => None
  }

  /** The definition object itself, whatever map it came from. */
  function DefinitionOf(o: Option<Origin>): Option<PropertyDef>
  {
    match o
    case None => None
    case Some(FromFlow(d)) => Some(d)
    case Some(FromActivity(d)) => Some(d)
  }
}
