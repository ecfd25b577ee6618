/**
 * Parameter-binding synthesis for one component of a flow template
 * (assignFlowParameters and writeConnection). The component's declared
 * parameters, the flow-level definitions and the activity-local definitions
 * are turned into an ordered list of attributes. A matched set, tested
 * against property names and extended with parameter names, fixes the
 * precedence:
 * flow-level definitions not shadowed by the activity, then activity-local
 * definitions, then `attachedFlow`, then the fixed parameters `async` and
 * `updateComponents`, then every declared parameter by its own name.
 */
module ParameterBinding {
  import opened Common
  import opened FlowDefinitions
  import PropertyBinding

  const FlowPropertyPrefix := "fprop:"
  const OgnlPrefix := "ognl:"
  const AttachedFlow := "attachedFlow"
  const FlowToUse := "ognl:flowToUse"
  const Async := "async"
  const UpdateComponents := "updateComponents"

  /** The parameters bound to the surrounding component's property of the same name. */
  const FixedParameters := [Async, UpdateComponents]

  /** The parameters the structural pass may bind. */
  const StructuralNames := {AttachedFlow, Async, UpdateComponents}

  /** A parameter a component declares, with the default value its annotation gives ("" when none). */
  datatype DeclaredParameter = DeclaredParameter(name: string, defaultValue: string)

  /** One attribute written on the component's element. */
  datatype Attribute = Attribute(name: string, value: string)

  /** The matched parameter names and the attributes written so far. */
  datatype Emission = Emission(matched: set<string>, attributes: seq<Attribute>)

  /**
   * One call of writeConnection: the flow property `name` offered for the
   * component parameter `parameterName`.
   */
  datatype Connection = Connection(name: string, parameterName: string)

  /**
   * Map.get on the component's declared-parameter map. It has the shape of
   * FlowDefinitions.Lookup, but over component parameters rather than
   * property definitions; without traits the two element types share no
   * `name` accessor a single generic lookup could use.
   */
  function FindParameter(ps: seq<DeclaredParameter>, name: string): (r: Option<DeclaredParameter>)
    ensures r.Some? ==> r.value in ps && r.value.name == name
    ensures r.None? <==> forall i :: 0 <= i < |ps| ==> ps[i].name != name
  {
    if |ps| == 0 then None
    else if ps[0].name == name then Some(ps[0])
    else FindParameter(ps[1..], name)
  }

  predicate Declares(ps: seq<DeclaredParameter>, name: string)
  {
    FindParameter(ps, name).Some?
  }

  /**
   * The binding expression for property `name`: the bare name, or, when the
   * declared default is not blank, the name followed by `=component@default`
   * so that the binding evaluates the default against that component.
   */
  function ConnectionExpression(name: string, componentName: string, defaultValue: string): string
  {
    if IsBlank(Some(defaultValue)) then name else name + "=" + componentName + "@" + defaultValue
  }

  /** The attribute value writeConnection writes for the declared parameter `name`. */
  function BindingValue(ps: seq<DeclaredParameter>, componentName: string, name: string): string
    requires Declares(ps, name)
  {
    FlowPropertyPrefix + ConnectionExpression(name, componentName, FindParameter(ps, name).value.defaultValue)
  }

  /** The attribute value the structural pass writes for `name`. */
  function StructuralValue(name: string): string
  {
    if name == AttachedFlow then FlowToUse else OgnlPrefix + name
  }

  /** `r` is `e` with attributes appended and names added to the matched set. */
  predicate Extends(e: Emission, r: Emission)
  {
    && |e.attributes| <= |r.attributes|
    && r.attributes[..|e.attributes|] == e.attributes
    && e.matched <= r.matched
  }

  lemma ExtendsTransitive(a: Emission, b: Emission, c: Emission)
    requires Extends(a, b) && Extends(b, c)
    ensures Extends(a, c)
  {
    assert c.attributes[..|a.attributes|] == c.attributes[..|b.attributes|][..|a.attributes|];
  }

  /** Attribute `a` binds flow property `n`, a declared parameter of the component. */
  predicate BindsProperty(ps: seq<DeclaredParameter>, componentName: string, a: Attribute, n: string)
  {
    Declares(ps, n) && a.value == BindingValue(ps, componentName, n)
  }

  /** Attribute `a` is a structural binding of a declared parameter. */
  predicate FromStructural(ps: seq<DeclaredParameter>, a: Attribute)
  {
    a.name in StructuralNames && Declares(ps, a.name) && a.value == StructuralValue(a.name)
  }

  // ---------------------------------------------------------------------------
  // writeConnection
  // ---------------------------------------------------------------------------

  /**
   * writeConnection: when the property `name` is a declared parameter not
   * yet matched, write `parameterName` bound to the property and mark
   * `parameterName` matched; otherwise change nothing. The value written,
   * after its `fprop:` prefix, is an expression the binding parses back to
   * the property and, for a non-blank declared default, to that default
   * scoped to this component.
   */
  function WriteConnection(ps: seq<DeclaredParameter>, componentName: string, e: Emission,
                           name: string, parameterName: string): (r: Emission)
    ensures Extends(e, r)
    ensures r == e <==> !(Declares(ps, name) && name !in e.matched)
    ensures r != e ==>
              && r.matched == e.matched + {parameterName}
              && r.attributes == e.attributes + [Attribute(parameterName, BindingValue(ps, componentName, name))]
    ensures r != e && '=' !in name && '@' !in componentName ==>
              var v := r.attributes[|e.attributes|].value;
              var d := FindParameter(ps, name).value.defaultValue;
              && v[..|FlowPropertyPrefix|] == FlowPropertyPrefix
              && PropertyBinding.Parse(Some(v[|FlowPropertyPrefix|..])).Ok?
              && PropertyBinding.Parse(Some(v[|FlowPropertyPrefix|..])).value.key == name
              && (PropertyBinding.Parse(Some(v[|FlowPropertyPrefix|..])).value.default.Some? <==> !IsBlank(Some(d)))
              && (!IsBlank(Some(d)) ==>
                    PropertyBinding.Parse(Some(v[|FlowPropertyPrefix|..])).value.default ==
                    Some(PropertyBinding.DefaultClause(Some(componentName), d)))
  {
    if Declares(ps, name) && name !in e.matched then
      var r := Emission(e.matched + {parameterName},
                        e.attributes + [Attribute(parameterName, BindingValue(ps, componentName, name))]);
      if '=' !in name && '@' !in componentName then
        ConnectionRoundTrip(name, componentName, FindParameter(ps, name).value.defaultValue);
        assert r.attributes[|e.attributes|].value[|FlowPropertyPrefix|..] ==
               ConnectionExpression(name, componentName, FindParameter(ps, name).value.defaultValue);
        r
      else r
    else e
  }

  /**
   * The expression writeConnection emits is read back by the binding as the
   * property it names and, for a non-blank default, as that default scoped to
   * the named component.
   */
  lemma ConnectionRoundTrip(name: string, componentName: string, defaultValue: string)
    requires '=' !in name && '@' !in componentName
    ensures PropertyBinding.Parse(Some(ConnectionExpression(name, componentName, defaultValue))) ==
              Ok(PropertyBinding.Expression(name,
                   if IsBlank(Some(defaultValue)) then None
                   else Some(PropertyBinding.DefaultClause(Some(componentName), defaultValue))))
  {
    if IsBlank(Some(defaultValue)) {
      assert !PropertyBinding.HasSeparator(name);
      PropertyBinding.ParseRender(PropertyBinding.Expression(name, None));
    } else {
      PropertyBinding.ParseRenderScoped(name, componentName, defaultValue);
    }
  }

  /** The default of a binding written for a non-blank component name is evaluated against that component. */
  lemma ConnectionScope(name: string, componentName: string, defaultValue: string)
    requires '=' !in name && '@' !in componentName && !IsBlank(Some(defaultValue))
    ensures var p := PropertyBinding.Parse(Some(ConnectionExpression(name, componentName, defaultValue)));
            && p.Ok? && p.value.default.Some?
            && (!IsBlank(Some(componentName)) ==> PropertyBinding.DefaultScope(p.value.default.value) == PropertyBinding.Child(componentName))
            && (IsBlank(Some(componentName)) ==> PropertyBinding.DefaultScope(p.value.default.value) == PropertyBinding.Root)
  {
    ConnectionRoundTrip(name, componentName, defaultValue);
  }

  /** Distinct `=`-free property names get distinct binding values. */
  lemma BindingValueInjective(ps: seq<DeclaredParameter>, componentName: string, n1: string, n2: string)
    requires Declares(ps, n1)
    requires '=' !in n1 && '=' !in n2 && '@' !in componentName
    ensures BindsProperty(ps, componentName, Attribute(n1, BindingValue(ps, componentName, n1)), n2) ==> n1 == n2
  {
    if Declares(ps, n2) && BindingValue(ps, componentName, n1) == BindingValue(ps, componentName, n2) {
      SameBindingValue(ps, componentName, n1, n2);
    }
  }

  lemma SameBindingValue(ps: seq<DeclaredParameter>, componentName: string, n1: string, n2: string)
    requires Declares(ps, n1) && Declares(ps, n2)
    requires '=' !in n1 && '=' !in n2 && '@' !in componentName
    requires BindingValue(ps, componentName, n1) == BindingValue(ps, componentName, n2)
    ensures n1 == n2
  {
    var v := BindingValue(ps, componentName, n1);
    var d1 := FindParameter(ps, n1).value.defaultValue;
    var d2 := FindParameter(ps, n2).value.defaultValue;
    assert v[|FlowPropertyPrefix|..] == ConnectionExpression(n1, componentName, d1);
    assert v[|FlowPropertyPrefix|..] == ConnectionExpression(n2, componentName, d2);
    ConnectionRoundTrip(n1, componentName, d1);
    ConnectionRoundTrip(n2, componentName, d2);
  }

  // ---------------------------------------------------------------------------
  // Passes
  // ---------------------------------------------------------------------------

  /**
   * Every attribute appended from `e` to `r` binds a property named by one
   * of the offers `cs`, declared and not matched in `e`, through that
   * offer's parameter name.
   */
  predicate WrittenBy(ps: seq<DeclaredParameter>, componentName: string, e: Emission, cs: seq<Connection>, r: Emission)
  {
    forall k :: |e.attributes| <= k < |r.attributes| ==> OfferWritten(ps, componentName, e.matched, cs, r.attributes[k])
  }

  /**
   * Attribute `a` binds a property named by one of the offers `cs`, declared
   * and not in `matched`, through that offer's parameter name.
   */
  predicate OfferWritten(ps: seq<DeclaredParameter>, componentName: string, matched: set<string>,
                         cs: seq<Connection>, a: Attribute)
  {
    exists c :: c in cs && c.name !in matched && Declares(ps, c.name) &&
                a == Attribute(c.parameterName, BindingValue(ps, componentName, c.name))
  }

  /** Every name matched in `r` but not in `e` is the parameter of one of the offers `cs`. */
  predicate MatchedBy(e: Emission, cs: seq<Connection>, r: Emission)
  {
    forall n :: n in r.matched && n !in e.matched ==> exists c :: c in cs && c.parameterName == n
  }

  /**
   * writeConnection over a sequence of offers, in order. Every attribute
   * written binds a declared property not matched when the pass began, and
   * every newly matched name is the parameter of one of the offers.
   */
  function ConnectAll(ps: seq<DeclaredParameter>, componentName: string, e: Emission, cs: seq<Connection>): (r: Emission)
    ensures Extends(e, r)
    ensures WrittenBy(ps, componentName, e, cs, r)
    ensures MatchedBy(e, cs, r)
    decreases |cs|
  {
    if |cs| == 0 then e
    else
      var e1 := WriteConnection(ps, componentName, e, cs[0].name, cs[0].parameterName);
      var r := ConnectAll(ps, componentName, e1, cs[1..]);
      ExtendsTransitive(e, e1, r);
      WrittenStep(ps, componentName, e, cs, e1, r);
      MatchedStep(e, cs, e1, r);
      r
  }

  lemma WrittenStep(ps: seq<DeclaredParameter>, componentName: string, e: Emission, cs: seq<Connection>,
                    e1: Emission, r: Emission)
    requires |cs| > 0
    requires e1 == WriteConnection(ps, componentName, e, cs[0].name, cs[0].parameterName)
    requires Extends(e1, r) && WrittenBy(ps, componentName, e1, cs[1..], r)
    ensures WrittenBy(ps, componentName, e, cs, r)
  {
    forall k | |e.attributes| <= k < |r.attributes|
      ensures OfferWritten(ps, componentName, e.matched, cs, r.attributes[k])
    {
      var a := r.attributes[k];
      if k < |e1.attributes| {
        assert a == r.attributes[..|e1.attributes|][k];
        assert cs[0] in cs;
      } else {
        var c :| c in cs[1..] && c.name !in e1.matched && Declares(ps, c.name) &&
                 a == Attribute(c.parameterName, BindingValue(ps, componentName, c.name));
        assert c in cs;
      }
    }
  }

  lemma MatchedStep(e: Emission, cs: seq<Connection>, e1: Emission, r: Emission)
    requires |cs| > 0
    requires e1.matched <= e.matched + {cs[0].parameterName}
    requires MatchedBy(e1, cs[1..], r)
    ensures MatchedBy(e, cs, r)
  {
    forall n | n in r.matched && n !in e.matched
      ensures exists c :: c in cs && c.parameterName == n
    {
      if n in e1.matched {
        assert cs[0] in cs;
      } else {
        var c :| c in cs[1..] && c.parameterName == n;
        assert c in cs;
      }
    }
  }

  /** An offer reached while its property is declared and unmatched writes its attribute. */
  lemma {:induction false} ConnectReaches(ps: seq<DeclaredParameter>, componentName: string, e: Emission,
                                          cs: seq<Connection>, j: nat)
    requires j < |cs| && Declares(ps, cs[j].name) && cs[j].name !in e.matched
    requires forall i :: 0 <= i < j ==> cs[i].parameterName != cs[j].name
    ensures Attribute(cs[j].parameterName, BindingValue(ps, componentName, cs[j].name)) in
              ConnectAll(ps, componentName, e, cs).attributes
    decreases j
  {
    var e1 := WriteConnection(ps, componentName, e, cs[0].name, cs[0].parameterName);
    var r := ConnectAll(ps, componentName, e1, cs[1..]);
    if j == 0 {
      assert e1.attributes[|e.attributes|] == Attribute(cs[0].parameterName, BindingValue(ps, componentName, cs[0].name));
      assert r.attributes[..|e1.attributes|] == e1.attributes;
      assert r.attributes[|e.attributes|] == e1.attributes[|e.attributes|];
    } else {
      assert cs[0].parameterName != cs[j].name;
      assert cs[1..][j - 1] == cs[j];
      ConnectReaches(ps, componentName, e1, cs[1..], j - 1);
    }
  }

  /** Offers whose parameter is their own property leave every declared one of them matched. */
  lemma {:induction false} ConnectCovers(ps: seq<DeclaredParameter>, componentName: string, e: Emission, cs: seq<Connection>)
    requires forall c :: c in cs ==> c.parameterName == c.name
    ensures forall c :: c in cs && Declares(ps, c.name) ==> c.name in ConnectAll(ps, componentName, e, cs).matched
    decreases |cs|
  {
    if |cs| > 0 {
      var e1 := WriteConnection(ps, componentName, e, cs[0].name, cs[0].parameterName);
      ConnectCovers(ps, componentName, e1, cs[1..]);
      assert forall c :: c in cs ==> c == cs[0] || c in cs[1..];
    }
  }

  /**
   * The guard looks at the property name while the matched set records the
   * parameter name: two declared, distinct properties offered for the same
   * third parameter are both written to it.
   */
  lemma SharedParameterWrittenTwice(ps: seq<DeclaredParameter>, componentName: string, e: Emission,
                                    n1: string, n2: string, p: string)
    requires Declares(ps, n1) && Declares(ps, n2)
    requires n1 !in e.matched && n2 !in e.matched
    requires p != n1 && p != n2
    ensures var r := ConnectAll(ps, componentName, e, [Connection(n1, p), Connection(n2, p)]);
            && Attribute(p, BindingValue(ps, componentName, n1)) in r.attributes
            && Attribute(p, BindingValue(ps, componentName, n2)) in r.attributes
  {
    var cs := [Connection(n1, p), Connection(n2, p)];
    ConnectReaches(ps, componentName, e, cs, 0);
    ConnectReaches(ps, componentName, e, cs, 1);
  }

  /** A definition offered for its own property name and parameter name. */
  function DefinitionOffers(defs: seq<PropertyDef>): (cs: seq<Connection>)
    ensures |cs| == |defs|
    ensures forall i :: 0 <= i < |defs| ==> cs[i] == Connection(defs[i].name, defs[i].parameterName)
  {
    seq(|defs|, i requires 0 <= i < |defs| => Connection(defs[i].name, defs[i].parameterName))
  }

  /** Every declared parameter offered for the property of its own name. */
  function FallbackOffers(ps: seq<DeclaredParameter>): (cs: seq<Connection>)
    ensures |cs| == |ps|
    ensures forall i :: 0 <= i < |ps| ==> cs[i] == Connection(ps[i].name, ps[i].name)
  {
    seq(|ps|, i requires 0 <= i < |ps| => Connection(ps[i].name, ps[i].name))
  }

  /**
   * A flow-level definition is offered when there is no activity, or when
   * the activity's governing definition for its name is that very
   * flow-level definition.
   */
  predicate IsOffered(flowDefs: seq<PropertyDef>, activity: Option<Activity>, d: PropertyDef)
  {
    activity.None? || Governing(activity.value, flowDefs, d.name) == Some(FromFlow(d))
  }

  /** The flow-level definitions offered to the component, in iteration order. */
  function Offered(flowDefs: seq<PropertyDef>, candidates: seq<PropertyDef>, activity: Option<Activity>): (r: seq<PropertyDef>)
    ensures forall d :: d in r <==> d in candidates && IsOffered(flowDefs, activity, d)
    ensures |r| <= |candidates|
  {
    if |candidates| == 0 then []
    else
      var rest := Offered(flowDefs, candidates[1..], activity);
      assert forall d :: d in candidates <==> d == candidates[0] || d in candidates[1..];
      if IsOffered(flowDefs, activity, candidates[0]) then [candidates[0]] + rest else rest
  }

  /** An offer made in the flow-level pass names a flow-level definition the activity does not shadow. */
  lemma OfferedConnection(flowDefs: seq<PropertyDef>, a: Activity, c: Connection)
    requires c in DefinitionOffers(Offered(flowDefs, flowDefs, Some(a)))
    ensures Lookup(a.localDefs, c.name).None?
    ensures Lookup(flowDefs, c.name).Some?
  {
    var offered := Offered(flowDefs, flowDefs, Some(a));
    var cs := DefinitionOffers(offered);
    var i :| 0 <= i < |cs| && cs[i] == c;
    assert c.name == offered[i].name;
    ShadowedNotOffered(flowDefs, a, offered[i]);
  }

  /** A flow-level definition is never offered for a name the activity defines locally. */
  lemma ShadowedNotOffered(flowDefs: seq<PropertyDef>, a: Activity, d: PropertyDef)
    requires d in Offered(flowDefs, flowDefs, Some(a))
    ensures Lookup(a.localDefs, d.name).None?
    ensures Lookup(flowDefs, d.name) == Some(d)
  {
  }

  /** Without an activity every flow-level definition is offered, in order. */
  lemma {:induction false} AllOfferedWithoutActivity(flowDefs: seq<PropertyDef>, candidates: seq<PropertyDef>)
    ensures Offered(flowDefs, candidates, None) == candidates
    decreases |candidates|
  {
    if |candidates| > 0 {
      AllOfferedWithoutActivity(flowDefs, candidates[1..]);
    }
  }

  /** Pass 1: flow-level definitions not shadowed by the activity. */
  function FlowLevelPass(flow: Flow, activity: Option<Activity>, ps: seq<DeclaredParameter>,
                         componentName: string, e: Emission): Emission
  {
    ConnectAll(ps, componentName, e, DefinitionOffers(Offered(flow.propertyDefs, flow.propertyDefs, activity)))
  }

  /** Pass 2: the activity-local definitions. */
  function ActivityPass(activity: Option<Activity>, ps: seq<DeclaredParameter>, componentName: string, e: Emission): Emission
  {
    if activity.Some? then ConnectAll(ps, componentName, e, DefinitionOffers(activity.value.localDefs)) else e
  }

  /** Bind the declared, still unmatched parameter `name` to `value`. */
  function ConnectFixed(ps: seq<DeclaredParameter>, e: Emission, name: string, value: string): (r: Emission)
    ensures Extends(e, r)
    ensures r == e <==> !(Declares(ps, name) && name !in e.matched)
    ensures r != e ==> r.matched == e.matched + {name} && r.attributes == e.attributes + [Attribute(name, value)]
  {
    if Declares(ps, name) && name !in e.matched then
      Emission(e.matched + {name}, e.attributes + [Attribute(name, value)])
    else e
  }

  /** The fixed parameters, each bound to the surrounding component's property of its name. */
  function ConnectFixedParameters(ps: seq<DeclaredParameter>, e: Emission, names: seq<string>): (r: Emission)
    ensures Extends(e, r)
    ensures r.matched == e.matched + set n | n in names && Declares(ps, n)
    ensures forall k :: |e.attributes| <= k < |r.attributes| ==>
              r.attributes[k].name in names && r.attributes[k].name !in e.matched &&
              Declares(ps, r.attributes[k].name) && r.attributes[k].value == OgnlPrefix + r.attributes[k].name
    ensures forall n :: n in names && Declares(ps, n) && n !in e.matched ==> Attribute(n, OgnlPrefix + n) in r.attributes
    decreases |names|
  {
    if |names| == 0 then e
    else
      var e1 := ConnectFixed(ps, e, names[0], OgnlPrefix + names[0]);
      var r := ConnectFixedParameters(ps, e1, names[1..]);
      ExtendsTransitive(e, e1, r);
      assert forall n :: n in names <==> n == names[0] || n in names[1..];
      assert forall k :: |e.attributes| <= k < |e1.attributes| ==> r.attributes[k] == e1.attributes[k];
      assert Declares(ps, names[0]) && names[0] !in e.matched ==>
               r.attributes[|e.attributes|] == Attribute(names[0], OgnlPrefix + names[0]);
      r
  }

  /**
   * Pass 3: `attachedFlow` bound to the surrounding component's flow, then
   * the fixed parameters; each only when declared and still unmatched.
   */
  function StructuralPass(ps: seq<DeclaredParameter>, e: Emission): (r: Emission)
    ensures Extends(e, r)
    ensures forall n :: n in StructuralNames ==> (n in r.matched <==> n in e.matched || Declares(ps, n))
    ensures r.matched - e.matched <= StructuralNames
    ensures forall k :: |e.attributes| <= k < |r.attributes| ==>
              r.attributes[k].name !in e.matched && FromStructural(ps, r.attributes[k])
    ensures forall n :: n in StructuralNames && Declares(ps, n) && n !in e.matched ==>
              Attribute(n, StructuralValue(n)) in r.attributes
  {
    var e1 := ConnectFixed(ps, e, AttachedFlow, FlowToUse);
    var r := ConnectFixedParameters(ps, e1, FixedParameters);
    ExtendsTransitive(e, e1, r);
    StructuralAttributes(ps, e, e1, r);
    StructuralWritten(ps, e, e1, r);
    r
  }

  /** Every attribute pass 3 writes is a structural binding of a name the caller had not matched. */
  lemma StructuralAttributes(ps: seq<DeclaredParameter>, e: Emission, e1: Emission, r: Emission)
    requires e1 == ConnectFixed(ps, e, AttachedFlow, FlowToUse)
    requires r == ConnectFixedParameters(ps, e1, FixedParameters)
    ensures forall k :: |e.attributes| <= k < |r.attributes| ==>
              r.attributes[k].name !in e.matched && FromStructural(ps, r.attributes[k])
  {
    assert forall k :: |e.attributes| <= k < |e1.attributes| ==> r.attributes[k] == e1.attributes[k];
  }

  /** Pass 3 writes every declared structural parameter the caller had not matched. */
  lemma StructuralWritten(ps: seq<DeclaredParameter>, e: Emission, e1: Emission, r: Emission)
    requires e1 == ConnectFixed(ps, e, AttachedFlow, FlowToUse)
    requires r == ConnectFixedParameters(ps, e1, FixedParameters)
    ensures forall n :: n in StructuralNames && Declares(ps, n) && n !in e.matched ==>
              Attribute(n, StructuralValue(n)) in r.attributes
  {
    forall n | n in StructuralNames && Declares(ps, n) && n !in e.matched
      ensures Attribute(n, StructuralValue(n)) in r.attributes
    {
      if n == AttachedFlow {
        assert e1.attributes[|e.attributes|] == Attribute(n, StructuralValue(n));
        assert r.attributes[|e.attributes|] == e1.attributes[|e.attributes|];
      } else {
        assert n in FixedParameters && n !in e1.matched;
      }
    }
  }

  /** Pass 4: every declared parameter offered for the property of its own name. */
  function FallbackPass(ps: seq<DeclaredParameter>, componentName: string, e: Emission): Emission
  {
    ConnectAll(ps, componentName, e, FallbackOffers(ps))
  }

  /** Where an attribute written for one component may come from. */
  ghost predicate Provenance(ps: seq<DeclaredParameter>, componentName: string, initial: set<string>, a: Attribute)
  {
    || (exists n :: n !in initial && BindsProperty(ps, componentName, a, n))
    || (a.name !in initial && FromStructural(ps, a))
  }

  /**
   * assignFlowParameters: the four passes in order, from the matched set
   * the caller supplies. Afterwards every declared parameter is matched, and
   * every attribute either connects a declared property the caller had not
   * matched or is a structural binding of a parameter the caller had not
   * matched. Only the property name is tested against the caller's set: the
   * parameter an attribute is written under may be one the caller matched.
   */
  function AssignFlowParameters(flow: Flow, activity: Option<Activity>, ps: seq<DeclaredParameter>,
                                componentName: string, matched: set<string>): (r: Emission)
    ensures matched <= r.matched
    ensures forall p :: p in ps ==> p.name in r.matched
    ensures forall a :: a in r.attributes ==> Provenance(ps, componentName, matched, a)
  {
    var e0 := Emission(matched, []);
    var e1 := FlowLevelPass(flow, activity, ps, componentName, e0);
    var e2 := ActivityPass(activity, ps, componentName, e1);
    var e3 := StructuralPass(ps, e2);
    var r := FallbackPass(ps, componentName, e3);
    ExtendsTransitive(e0, e1, e2);
    ExtendsTransitive(e0, e2, e3);
    ExtendsTransitive(e0, e3, r);
    ConnectCovers(ps, componentName, e3, FallbackOffers(ps));
    forall p | p in ps ensures p.name in r.matched {
      var i :| 0 <= i < |ps| && ps[i] == p;
      assert FallbackOffers(ps)[i] == Connection(p.name, p.name);
      assert Declares(ps, p.name);
    }
    ProvenanceOfAll(ps, componentName, e0, e1, e2, e3, r, flow, activity);
    r
  }

  /** Every attribute of the four passes is accounted for by Provenance. */
  lemma ProvenanceOfAll(ps: seq<DeclaredParameter>, componentName: string,
                        e0: Emission, e1: Emission, e2: Emission, e3: Emission, r: Emission,
                        flow: Flow, activity: Option<Activity>)
    requires e0.attributes == []
    requires e1 == FlowLevelPass(flow, activity, ps, componentName, e0)
    requires e2 == ActivityPass(activity, ps, componentName, e1)
    requires e3 == StructuralPass(ps, e2)
    requires r == FallbackPass(ps, componentName, e3)
    ensures forall a :: a in r.attributes ==> Provenance(ps, componentName, e0.matched, a)
  {
    ExtendsTransitive(e0, e1, e2);
    ExtendsTransitive(e0, e2, e3);
    ExtendsTransitive(e1, e2, e3);
    ExtendsTransitive(e1, e3, r);
    ExtendsTransitive(e2, e3, r);
    forall a | a in r.attributes ensures Provenance(ps, componentName, e0.matched, a) {
      var k :| 0 <= k < |r.attributes| && r.attributes[k] == a;
      if k < |e1.attributes| {
        assert e1.attributes[k] == a;
        var c: Connection :| c in DefinitionOffers(Offered(flow.propertyDefs, flow.propertyDefs, activity)) && c.name !in e0.matched && Declares(ps, c.name) &&
                 a == Attribute(c.parameterName, BindingValue(ps, componentName, c.name));
        assert BindsProperty(ps, componentName, a, c.name);
      } else if k < |e2.attributes| {
        assert e2.attributes[k] == a;
        assert activity.Some?;
        var c: Connection :| c in DefinitionOffers(activity.value.localDefs) && c.name !in e1.matched && Declares(ps, c.name) &&
                 a == Attribute(c.parameterName, BindingValue(ps, componentName, c.name));
        assert BindsProperty(ps, componentName, a, c.name);
      } else if k < |e3.attributes| {
        assert e3.attributes[k] == a;
        assert a.name !in e2.matched && FromStructural(ps, a);
      } else {
        var c: Connection :| c in FallbackOffers(ps) && c.name !in e3.matched && Declares(ps, c.name) &&
                 a == Attribute(c.parameterName, BindingValue(ps, componentName, c.name));
        assert BindsProperty(ps, componentName, a, c.name);
      }
    }
  }

  // ---------------------------------------------------------------------------
  // Precedence
  // ---------------------------------------------------------------------------

  /**
   * The flow-level pass binds no property the activity defines locally:
   * each attribute it writes binds the name of an offered flow-level
   * definition, and those are never shadowed.
   */
  lemma FlowPassSkipsShadowed(flow: Flow, a: Activity, ps: seq<DeclaredParameter>, componentName: string,
                              e: Emission, x: string)
    requires Lookup(a.localDefs, x).Some? && '=' !in x && '@' !in componentName
    requires forall d :: d in flow.propertyDefs ==> '=' !in d.name
    ensures var r := FlowLevelPass(flow, Some(a), ps, componentName, e);
            forall k :: |e.attributes| <= k < |r.attributes| ==> !BindsProperty(ps, componentName, r.attributes[k], x)
  {
    var offered := Offered(flow.propertyDefs, flow.propertyDefs, Some(a));
    var cs := DefinitionOffers(offered);
    var r := FlowLevelPass(flow, Some(a), ps, componentName, e);
    forall k | |e.attributes| <= k < |r.attributes| ensures !BindsProperty(ps, componentName, r.attributes[k], x) {
      assert OfferWritten(ps, componentName, e.matched, cs, r.attributes[k]);
      var c :| c in cs && c.name !in e.matched && Declares(ps, c.name) &&
               r.attributes[k] == Attribute(c.parameterName, BindingValue(ps, componentName, c.name));
      OfferNotShadowed(flow.propertyDefs, a, ps, componentName, x, c);
    }
  }

  /** A flow-level offer never binds a property the activity shadows. */
  lemma OfferNotShadowed(flowDefs: seq<PropertyDef>, a: Activity, ps: seq<DeclaredParameter>, componentName: string, x: string, c: Connection)
    requires Lookup(a.localDefs, x).Some? && '=' !in x && '@' !in componentName
    requires forall d :: d in flowDefs ==> '=' !in d.name
    requires c in DefinitionOffers(Offered(flowDefs, flowDefs, Some(a))) && Declares(ps, c.name)
    ensures !BindsProperty(ps, componentName, Attribute(c.parameterName, BindingValue(ps, componentName, c.name)), x)
  {
    OfferedConnection(flowDefs, a, c);
    BindingValueInjective(ps, componentName, c.name, x);
  }

  /**
   * An activity-local definition binds its property through its own
   * parameter name, provided nothing earlier claimed that name: no
   * flow-level definition of another property targets it, no earlier local
   * definition targets it, and the caller had not matched it.
   */
  lemma ActivityDefinitionBound(flow: Flow, a: Activity, ps: seq<DeclaredParameter>, componentName: string,
                                matched: set<string>, j: nat)
    requires j < |a.localDefs|
    requires Declares(ps, a.localDefs[j].name) && a.localDefs[j].name !in matched
    requires forall i :: 0 <= i < j ==> a.localDefs[i].parameterName != a.localDefs[j].name
    requires forall d :: d in flow.propertyDefs && d.parameterName == a.localDefs[j].name ==> d.name == a.localDefs[j].name
    ensures Attribute(a.localDefs[j].parameterName, BindingValue(ps, componentName, a.localDefs[j].name)) in
              AssignFlowParameters(flow, Some(a), ps, componentName, matched).attributes
  {
    var x := a.localDefs[j].name;
    var e0 := Emission(matched, []);
    var e1 := FlowLevelPass(flow, Some(a), ps, componentName, e0);
    var e2 := ActivityPass(Some(a), ps, componentName, e1);
    var e3 := StructuralPass(ps, e2);
    var r := FallbackPass(ps, componentName, e3);
    var offered := Offered(flow.propertyDefs, flow.propertyDefs, Some(a));
    if x in e1.matched {
      var c :| c in DefinitionOffers(offered) && c.parameterName == x;
      var i :| 0 <= i < |offered| && DefinitionOffers(offered)[i] == c;
      var d := offered[i];
      assert d in flow.propertyDefs && d.parameterName == x;
      assert Lookup(a.localDefs, x).Some?;
      ShadowedNotOffered(flow.propertyDefs, a, d);
      assert false;
    }
    var cs := DefinitionOffers(a.localDefs);
    ConnectReaches(ps, componentName, e1, cs, j);
    ExtendsTransitive(e2, e3, r);
    var w := Attribute(a.localDefs[j].parameterName, BindingValue(ps, componentName, x));
    var k :| 0 <= k < |e2.attributes| && e2.attributes[k] == w;
    assert r.attributes[k] == w;
  }

  /**
   * The convention fallback: a declared parameter that no definition
   * targets, that is not structural and that the caller had not matched is
   * bound to the flow property of its own name.
   */
  lemma FallbackBindsByName(flow: Flow, activity: Option<Activity>, ps: seq<DeclaredParameter>, componentName: string,
                            matched: set<string>, j: nat)
    requires j < |ps| && ps[j].name !in matched && ps[j].name !in StructuralNames
    requires forall d :: d in flow.propertyDefs ==> d.parameterName != ps[j].name
    requires activity.Some? ==> forall d :: d in activity.value.localDefs ==> d.parameterName != ps[j].name
    ensures Attribute(ps[j].name, BindingValue(ps, componentName, ps[j].name)) in
              AssignFlowParameters(flow, activity, ps, componentName, matched).attributes
  {
    var x := ps[j].name;
    var e0 := Emission(matched, []);
    var e1 := FlowLevelPass(flow, activity, ps, componentName, e0);
    var e2 := ActivityPass(activity, ps, componentName, e1);
    var e3 := StructuralPass(ps, e2);
    assert Declares(ps, x);
    assert x !in e1.matched;
    assert x !in e2.matched;
    assert x !in e3.matched;
    var i0 := FirstNamed(ps, x, j);
    assert FallbackOffers(ps)[i0] == Connection(x, x);
    ConnectReaches(ps, componentName, e3, FallbackOffers(ps), i0);
  }

  /** The first position at or before `j` whose parameter is named `x`. */
  lemma FirstNamed(ps: seq<DeclaredParameter>, x: string, j: nat) returns (i: nat)
    requires j < |ps| && ps[j].name == x
    ensures i <= j && ps[i].name == x
    ensures forall m :: 0 <= m < i ==> ps[m].name != x
  {
    i := 0;
    while ps[i].name != x
      invariant i <= j
      invariant forall m :: 0 <= m < i ==> ps[m].name != x
      decreases j - i
    {
      i := i + 1;
    }
  }
}
