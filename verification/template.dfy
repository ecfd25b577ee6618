/**
 * Template synthesis for a full flow component (findTemplate and
 * createTemplate): placeholders for unknown or empty flows, one block per
 * activity whose component resolves, and the trailing flow border.
 * The generated markup is represented by what varies in it: the blocks
 * with their attributes and the border's attributes.
 */
module TemplateSynthesis {
  import opened Common
  import opened FlowDefinitions
  import opened ParameterBinding

  const FullFlowComponentClass := "org.amplafi.flow.web.components.FullFlowComponent"
  const FlowBorderComponent := "flow:FlowBorder"
  const Jwcid := "jwcid"
  const HideFlowControl := "hideFlowControl"
  const EndListener := "endListener"
  const CancelListener := "cancelListener"
  const FinishListener := "finishListener"
  const NextListener := "nextListener"
  const PreviousListener := "previousListener"
  const Debug := "debug"
  const AdditionalUpdateComponents := "additionalUpdateComponents"

  /** The flow border's parameters that its element binds itself, so parameter binding never touches them. */
  const BorderPreset := {HideFlowControl, UpdateComponents, EndListener, CancelListener, FinishListener,
                         NextListener, PreviousListener, Async, Debug, AdditionalUpdateComponents,
                         "usingLinkSubmit", "disabled"}

  /** The specification of the component whose template is asked for. */
  datatype ComponentSpec = ComponentSpec(className: string, description: string)

  /**
   * The engine and what it consults: registered flows by type name, the
   * declared parameters of every component type that resolves, the
   * configured debug condition and additional update components, the flow
   * border's component name and the naming of the n-th flow component.
   */
  datatype Engine = Engine(
    flows: map<string, Flow>,
    components: map<string, seq<DeclaredParameter>>,
    debugCondition: Option<string>,
    additionalUpdateComponents: Option<string>,
    borderName: string,
    flowComponentName: nat -> string)

  /**
   * The block of one activity: the activity's own index (which names the
   * block), the ordinal of the flow component inside it (which names the
   * component), the component type and the component's attributes.
   */
  datatype Block = Block(blockIndex: nat, ordinal: nat, componentType: string, attributes: seq<Attribute>)

  /** A generated flow template: the flow's name, the activity blocks and the border's attributes. */
  datatype FlowTemplate = FlowTemplate(flowName: string, blocks: seq<Block>, border: seq<Attribute>)

  /**
   * What findTemplate produces: nothing for a component that is not a full
   * flow component, a placeholder, or a generated template together with
   * the activities as synthesis leaves them. A flow border that does not
   * resolve aborts synthesis after the activity loop.
   */
  datatype Found =
    | NoTemplate
    | Placeholder(text: string)
    | Generated(template: FlowTemplate, activities: seq<Activity>)
    | BorderUnresolved(activities: seq<Activity>)

  function NotFoundText(flowType: string): string
  {
    "<div>[Flow " + flowType + " not found]</div>"
  }

  function NoActivitiesText(flowType: string): string
  {
    "<div>[Flow " + flowType + " has no activites]</div>"
  }

  /** An activity whose component is named and resolves gets a block. */
  predicate Emits(engine: Engine, a: Activity)
  {
    !IsBlank(a.componentName) && a.componentName.value in engine.components
  }

  /** An activity whose component is named but does not resolve is made invisible. */
  predicate Unresolvable(engine: Engine, a: Activity)
  {
    !IsBlank(a.componentName) && a.componentName.value !in engine.components
  }

  /** The activities that get a block, in flow order. */
  function EmittedActivities(engine: Engine, acts: seq<Activity>): (r: seq<Activity>)
    ensures |r| <= |acts|
    ensures forall a :: a in r ==> a in acts && Emits(engine, a)
  {
    if |acts| == 0 then []
    else
      var init := EmittedActivities(engine, acts[..|acts| - 1]);
      if Emits(engine, acts[|acts| - 1]) then init + [acts[|acts| - 1]] else init
  }

  /** The block of an emitted activity holding the flow component with ordinal `k`. */
  function BlockFor(engine: Engine, flow: Flow, a: Activity, k: nat): Block
    requires Emits(engine, a)
  {
    var name := a.componentName.value;
    Block(a.index, k, name,
          AssignFlowParameters(flow, Some(a), engine.components[name], engine.flowComponentName(k), {}).attributes)
  }

  /** Activity indices match positions. */
  predicate DenseIndices(acts: seq<Activity>)
  {
    forall i :: 0 <= i < |acts| ==> acts[i].index == i
  }

  /**
   * The activity loop of createTemplate. A blank component name is skipped
   * and left as it is; an unresolvable component marks its activity
   * invisible and is skipped; every other activity gets the next block.
   * Only emitted activities advance the counter, so flow components are
   * numbered 0..k-1 while blocks keep their activity's index.
   */
  method CreateActivityBlocks(engine: Engine, flow: Flow) returns (blocks: seq<Block>, activities: seq<Activity>)
    ensures ResolvedPrefix(engine, flow.activities, activities)
    ensures BlocksOf(engine, flow, EmittedActivities(engine, flow.activities), blocks)
    ensures DenseIndices(flow.activities) ==> IndexedBelow(blocks, |flow.activities|)
  {
    blocks := [];
    activities := [];
    ghost var emitted: seq<Activity> := [];
    var counter := 0;
    var i := 0;
    while i < |flow.activities|
      invariant 0 <= i <= |flow.activities|
      invariant ResolvedPrefix(engine, flow.activities[..i], activities)
      invariant emitted == EmittedActivities(engine, flow.activities[..i])
      invariant counter == |blocks|
      invariant BlocksOf(engine, flow, emitted, blocks)
      invariant DenseIndices(flow.activities) ==> IndexedBelow(blocks, i)
    {
      var activity := flow.activities[i];
      ghost var before := (activities, emitted, blocks);
      ResolutionCases(engine, activity);
      if IsBlank(activity.componentName) {
        activities := activities + [activity];
      } else if activity.componentName.value !in engine.components {
        activities := activities + [activity.(invisible := true)];
      } else {
        activities := activities + [activity];
        var block := BlockFor(engine, flow, activity, counter);
        emitted := emitted + [activity];
        blocks := blocks + [block];
        counter := counter + 1;
      }
      ActivityStep(engine, flow, i, before.0, before.1, before.2, activities, emitted, blocks);
      i := i + 1;
    }
    assert flow.activities[..i] == flow.activities;
  }

  /** An activity as the loop leaves it: made invisible when its named component does not resolve. */
  function AfterResolution(engine: Engine, a: Activity): Activity
  {
    a.(invisible := a.invisible || Unresolvable(engine, a))
  }

  /** The three branches of the activity loop, and what each leaves of the activity. */
  lemma ResolutionCases(engine: Engine, a: Activity)
    ensures IsBlank(a.componentName) ==> AfterResolution(engine, a) == a && !Emits(engine, a)
    ensures !IsBlank(a.componentName) && a.componentName.value !in engine.components ==>
              AfterResolution(engine, a) == a.(invisible := true) && !Emits(engine, a)
    ensures !IsBlank(a.componentName) && a.componentName.value in engine.components ==>
              AfterResolution(engine, a) == a && Emits(engine, a)
  {
  }

  /** `out` is `src` with every activity as the activity loop leaves it. */
  predicate ResolvedPrefix(engine: Engine, src: seq<Activity>, out: seq<Activity>)
  {
    |out| == |src| && forall j :: 0 <= j < |src| ==> out[j] == AfterResolution(engine, src[j])
  }

  /**
   * Resolution only ever hides activities that get no block: the resolved
   * activities emit exactly the blocks the originals do, and resolving them
   * a second time changes nothing.
   */
  lemma {:induction false} ResolutionStable(engine: Engine, src: seq<Activity>, out: seq<Activity>)
    requires ResolvedPrefix(engine, src, out)
    ensures EmittedActivities(engine, out) == EmittedActivities(engine, src)
    ensures ResolvedPrefix(engine, out, out)
  {
    if |src| > 0 {
      var n := |src| - 1;
      assert ResolvedPrefix(engine, src[..n], out[..n]);
      ResolutionStable(engine, src[..n], out[..n]);
      ResolutionCases(engine, src[n]);
      assert Emits(engine, out[n]) <==> Emits(engine, src[n]);
      assert Emits(engine, src[n]) ==> out[n] == src[n];
      forall j | 0 <= j < |out| ensures out[j] == AfterResolution(engine, out[j]) {
        ResolutionCases(engine, src[j]);
      }
    }
  }

  /** What one turn of the activity loop keeps of its invariants. */
  lemma ActivityStep(engine: Engine, flow: Flow, i: nat, activities: seq<Activity>, emitted: seq<Activity>, blocks: seq<Block>,
                      activities': seq<Activity>, emitted': seq<Activity>, blocks': seq<Block>)
    requires i < |flow.activities|
    requires ResolvedPrefix(engine, flow.activities[..i], activities)
    requires emitted == EmittedActivities(engine, flow.activities[..i])
    requires BlocksOf(engine, flow, emitted, blocks)
    requires DenseIndices(flow.activities) ==> IndexedBelow(blocks, i)
    requires activities' == activities + [AfterResolution(engine, flow.activities[i])]
    requires emitted' == emitted + (if Emits(engine, flow.activities[i]) then [flow.activities[i]] else [])
    requires blocks' == blocks + (if Emits(engine, flow.activities[i]) then [BlockFor(engine, flow, flow.activities[i], |blocks|)] else [])
    ensures ResolvedPrefix(engine, flow.activities[..i + 1], activities')
    ensures emitted' == EmittedActivities(engine, flow.activities[..i + 1])
    ensures BlocksOf(engine, flow, emitted', blocks')
    ensures DenseIndices(flow.activities) ==> IndexedBelow(blocks', i + 1)
  {
    var a := flow.activities[i];
    EmittedStep(engine, flow.activities, i);
    ResolvedStep(engine, flow.activities, i, activities);
    if DenseIndices(flow.activities) {
      IndexedWiden(blocks, i);
      if Emits(engine, a) {
        IndexedStep(blocks, i, BlockFor(engine, flow, a, |blocks|));
      }
    }
    if Emits(engine, a) {
      BlocksStep(engine, flow, emitted, blocks, a);
    }
  }

  lemma ResolvedStep(engine: Engine, acts: seq<Activity>, i: nat, before: seq<Activity>)
    requires i < |acts|
    requires ResolvedPrefix(engine, acts[..i], before)
    ensures ResolvedPrefix(engine, acts[..i + 1], before + [AfterResolution(engine, acts[i])])
  {
  }

  /** `blocks` are the blocks of the emitted activities, numbered from 0. */
  predicate BlocksOf(engine: Engine, flow: Flow, emitted: seq<Activity>, blocks: seq<Block>)
  {
    && |blocks| == |emitted|
    && forall k :: 0 <= k < |blocks| ==> Emits(engine, emitted[k]) && blocks[k] == BlockFor(engine, flow, emitted[k], k)
  }

  lemma BlocksStep(engine: Engine, flow: Flow, emitted: seq<Activity>, blocks: seq<Block>, a: Activity)
    requires BlocksOf(engine, flow, emitted, blocks) && Emits(engine, a)
    ensures BlocksOf(engine, flow, emitted + [a], blocks + [BlockFor(engine, flow, a, |blocks|)])
  {
  }

  /**
   * With dense activity indices, the k-th block belongs to an activity at
   * position k or later, below `bound`, and blocks follow flow order.
   */
  predicate IndexedBelow(blocks: seq<Block>, bound: nat)
  {
    && |blocks| <= bound
    && (forall k :: 0 <= k < |blocks| ==> k <= blocks[k].blockIndex < bound)
    && (forall k1, k2 :: 0 <= k1 < k2 < |blocks| ==> blocks[k1].blockIndex < blocks[k2].blockIndex)
  }

  lemma IndexedStep(blocks: seq<Block>, bound: nat, b: Block)
    requires IndexedBelow(blocks, bound) && b.blockIndex == bound
    ensures IndexedBelow(blocks + [b], bound + 1)
  {
  }

  lemma IndexedWiden(blocks: seq<Block>, bound: nat)
    requires IndexedBelow(blocks, bound)
    ensures IndexedBelow(blocks, bound + 1)
  {
  }

  /** One more activity adds itself to the emitted ones exactly when it emits. */
  lemma EmittedStep(engine: Engine, acts: seq<Activity>, i: nat)
    requires i < |acts|
    ensures EmittedActivities(engine, acts[..i + 1]) ==
              EmittedActivities(engine, acts[..i]) + (if Emits(engine, acts[i]) then [acts[i]] else [])
  {
    assert acts[..i + 1][..i] == acts[..i];
  }

  /** The attributes the flow border's element always carries. */
  function BorderHeader(borderName: string): seq<Attribute>
  {
    [ Attribute(Jwcid, borderName + "@" + FlowBorderComponent),
      Attribute(HideFlowControl, OgnlPrefix + HideFlowControl),
      Attribute(UpdateComponents, OgnlPrefix + UpdateComponents),
      Attribute(EndListener, OgnlPrefix + EndListener),
      Attribute(CancelListener, OgnlPrefix + CancelListener),
      Attribute(FinishListener, OgnlPrefix + FinishListener),
      Attribute(Async, OgnlPrefix + Async),
      Attribute(NextListener, OgnlPrefix + NextListener),
      Attribute(PreviousListener, OgnlPrefix + PreviousListener) ]
  }

  /** An attribute written only when its setting is configured. */
  function Configured(name: string, setting: Option<string>): seq<Attribute>
  {
    if setting.Some? then [Attribute(name, setting.value)] else []
  }

  /**
   * The flow border's attributes: the fixed header, `debug` and
   * `additionalUpdateComponents` when configured, then parameter binding
   * with no activity and the preset matched set. Every attribute of that
   * binding binds a flow property outside the preset or is the
   * `attachedFlow` binding, and every declared border parameter ends up
   * matched.
   */
  function BorderAttributes(engine: Engine, flow: Flow, borderParams: seq<DeclaredParameter>): (r: seq<Attribute>)
    ensures |BorderHeader(engine.borderName)| <= |r|
    ensures r[..|BorderHeader(engine.borderName)|] == BorderHeader(engine.borderName)
    ensures engine.debugCondition.Some? ==>
              |BorderHeader(engine.borderName)| < |r| &&
              r[|BorderHeader(engine.borderName)|] == Attribute(Debug, engine.debugCondition.value)
    ensures engine.additionalUpdateComponents.Some? ==>
              var at := |BorderHeader(engine.borderName)| + |Configured(Debug, engine.debugCondition)|;
              at < |r| && r[at] == Attribute(AdditionalUpdateComponents, engine.additionalUpdateComponents.value)
    ensures var c := |BorderHeader(engine.borderName)| +
                     |Configured(Debug, engine.debugCondition)| +
                     |Configured(AdditionalUpdateComponents, engine.additionalUpdateComponents)|;
            && c <= |r|
            && (forall k :: 0 <= k < c && r[k].name == Debug ==> engine.debugCondition == Some(r[k].value))
            && (forall k :: 0 <= k < c && r[k].name == AdditionalUpdateComponents ==>
                  engine.additionalUpdateComponents == Some(r[k].value))
    ensures var c := |BorderHeader(engine.borderName)| +
                     |Configured(Debug, engine.debugCondition)| +
                     |Configured(AdditionalUpdateComponents, engine.additionalUpdateComponents)|;
            && c <= |r|
            && (forall a :: a in r[c..] ==>
                  (a.name == AttachedFlow && a.value == FlowToUse) ||
                  (exists n :: n !in BorderPreset && BindsProperty(borderParams, engine.borderName, a, n)))
  {
    var header := BorderHeader(engine.borderName);
    var configured := Configured(Debug, engine.debugCondition) +
                      Configured(AdditionalUpdateComponents, engine.additionalUpdateComponents);
    var bindings := BorderBindings(flow, borderParams, engine.borderName);
    var r := header + configured + bindings;
    assert |header| <= |r| && r[..|header|] == header by {
      Concat3(header, configured, bindings);
    }
    assert engine.debugCondition.Some? ==>
             |header| < |r| && r[|header|] == Attribute(Debug, engine.debugCondition.value) by {
      Concat3(header, configured, bindings);
    }
    assert engine.additionalUpdateComponents.Some? ==>
             var at := |header| + |Configured(Debug, engine.debugCondition)|;
             at < |r| && r[at] == Attribute(AdditionalUpdateComponents, engine.additionalUpdateComponents.value) by {
      Concat3(header, configured, bindings);
    }
    assert r[..|header| + |configured|] == header + configured by {
      Concat3(header, configured, bindings);
    }
    ConfiguredOnly(engine, r, |header| + |configured|);
    assert r[|header| + |configured|..] == bindings by {
      Concat3(header, configured, bindings);
    }
    r
  }

  /** Parameter binding of the flow border: no activity, starting from the preset matched set. */
  function BorderBindings(flow: Flow, borderParams: seq<DeclaredParameter>, borderName: string): (r: seq<Attribute>)
    ensures forall a :: a in r ==>
              (a.name == AttachedFlow && a.value == FlowToUse) ||
              (exists n :: n !in BorderPreset && BindsProperty(borderParams, borderName, a, n))
  {
    var emission := AssignFlowParameters(flow, None, borderParams, borderName, BorderPreset);
    BorderBindingsOutsidePreset(borderParams, borderName, emission.attributes);
    emission.attributes
  }

  /**
   * Before the bindings, `debug` and `additionalUpdateComponents` appear
   * only as configured: the header never names them.
   */
  lemma ConfiguredOnly(engine: Engine, r: seq<Attribute>, c: nat)
    requires c == |BorderHeader(engine.borderName)| + |Configured(Debug, engine.debugCondition)| +
                  |Configured(AdditionalUpdateComponents, engine.additionalUpdateComponents)|
    requires c <= |r|
    requires r[..c] == BorderHeader(engine.borderName) + Configured(Debug, engine.debugCondition) +
                       Configured(AdditionalUpdateComponents, engine.additionalUpdateComponents)
    ensures forall k :: 0 <= k < c && r[k].name == Debug ==> engine.debugCondition == Some(r[k].value)
    ensures forall k :: 0 <= k < c && r[k].name == AdditionalUpdateComponents ==>
              engine.additionalUpdateComponents == Some(r[k].value)
  {
    var header := BorderHeader(engine.borderName);
    var d := Configured(Debug, engine.debugCondition);
    forall k | 0 <= k < c
      ensures r[k].name == Debug ==> engine.debugCondition == Some(r[k].value)
      ensures r[k].name == AdditionalUpdateComponents ==> engine.additionalUpdateComponents == Some(r[k].value)
    {
      assert r[k] == r[..c][k];
      if k < |header| {
        assert r[k] in header;
      } else if k < |header| + |d| {
        assert r[k] == d[k - |header|];
      } else {
        assert r[k] == Configured(AdditionalUpdateComponents, engine.additionalUpdateComponents)[k - |header| - |d|];
      }
    }
  }

  /** The three parts of a concatenation are found again by slicing. */
  lemma Concat3<T>(a: seq<T>, b: seq<T>, c: seq<T>)
    ensures (a + b + c)[..|a|] == a
    ensures |b| > 0 ==> (a + b + c)[|a|] == b[0]
    ensures |b| > 1 ==> (a + b + c)[|a| + 1] == b[1]
    ensures |b| > 0 ==> (a + b + c)[|a| + |b| - 1] == b[|b| - 1]
    ensures (a + b + c)[..|a| + |b|] == a + b
    ensures (a + b + c)[|a| + |b|..] == c
  {
  }

  /**
   * Parameter binding that starts from the preset binds neither a preset
   * parameter structurally nor a preset property: what remains is
   * `attachedFlow` or the binding of another property.
   */
  lemma BorderBindingsOutsidePreset(ps: seq<DeclaredParameter>, borderName: string, attrs: seq<Attribute>)
    requires forall a :: a in attrs ==> Provenance(ps, borderName, BorderPreset, a)
    ensures forall a :: a in attrs ==>
              (a.name == AttachedFlow && a.value == FlowToUse) ||
              (exists n :: n !in BorderPreset && BindsProperty(ps, borderName, a, n))
  {
    forall a | a in attrs
      ensures (a.name == AttachedFlow && a.value == FlowToUse) ||
              (exists n :: n !in BorderPreset && BindsProperty(ps, borderName, a, n))
    {
      assert Provenance(ps, borderName, BorderPreset, a);
      if a.name !in BorderPreset && FromStructural(ps, a) {
        assert Async in BorderPreset && UpdateComponents in BorderPreset;
        assert a.name == AttachedFlow;
      }
    }
  }

  /**
   * The flow border is bound with no activity, so every flow-level
   * definition is offered to it, in order.
   */
  lemma BorderSeesAllFlowDefinitions(flow: Flow)
    ensures Offered(flow.propertyDefs, flow.propertyDefs, None) == flow.propertyDefs
  {
    AllOfferedWithoutActivity(flow.propertyDefs, flow.propertyDefs);
  }

  /**
   * findTemplate: only a full flow component gets a template. An unknown
   * flow type and a flow without activities get placeholders; otherwise the
   * activity blocks are synthesised and, once the flow border resolves, its
   * attributes complete the template.
   */
  method FindTemplate(engine: Engine, spec: ComponentSpec) returns (r: Found)
    ensures r.NoTemplate? <==> spec.className != FullFlowComponentClass
    ensures spec.className == FullFlowComponentClass && spec.description !in engine.flows ==>
              r == Placeholder(NotFoundText(spec.description))
    ensures spec.className == FullFlowComponentClass && spec.description in engine.flows &&
            |engine.flows[spec.description].activities| == 0 ==>
              r == Placeholder(NoActivitiesText(spec.description))
    ensures r.Placeholder? ==> spec.description !in engine.flows || |engine.flows[spec.description].activities| == 0
    ensures r.Generated? ==> FlowBorderComponent in engine.components
    ensures r.BorderUnresolved? ==> FlowBorderComponent !in engine.components
    ensures r.BorderUnresolved? ==> ResolvedPrefix(engine, engine.flows[spec.description].activities, r.activities)
    ensures r.Generated? ==>
              var flow := engine.flows[spec.description];
              && r.template.flowName == flow.typeName
              && |r.template.blocks| == |EmittedActivities(engine, flow.activities)|
              && (forall k :: 0 <= k < |r.template.blocks| ==> r.template.blocks[k].ordinal == k)
              && BlocksOf(engine, flow, EmittedActivities(engine, flow.activities), r.template.blocks)
              && ResolvedPrefix(engine, flow.activities, r.activities)
              && r.template.border == BorderAttributes(engine, flow, engine.components[FlowBorderComponent])
              && |r.activities| == |flow.activities|
              && (forall i :: 0 <= i < |flow.activities| ==>
                    r.activities[i].invisible == (flow.activities[i].invisible || Unresolvable(engine, flow.activities[i])))
  {
    if spec.className != FullFlowComponentClass {
      return NoTemplate;
    }
    var flowType := spec.description;
    if flowType !in engine.flows {
      return Placeholder(NotFoundText(flowType));
    }
    var flow := engine.flows[flowType];
    if |flow.activities| == 0 {
      return Placeholder(NoActivitiesText(flowType));
    }
    var blocks, activities := CreateActivityBlocks(engine, flow);
    if FlowBorderComponent !in engine.components {
      return BorderUnresolved(activities);
    }
    var border := BorderAttributes(engine, flow, engine.components[FlowBorderComponent]);
    r := Generated(FlowTemplate(flow.typeName, blocks, border), activities);
  }
}
