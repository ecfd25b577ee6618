# Amplafi flow web layer: a Dafny model

This project models the sequential core of the Tapestry 4 integration of the Amplafi flow engine. A flow is a sequence of activities, and each activity is rendered by its own component. The model covers three parts:

- **Template synthesis** (`FlowAwareTemplateSourceDelegate`).
  - `findTemplate` chooses between "no template", a placeholder and a generated template.
  - The activity loop of `createTemplate` emits one block per activity whose component resolves. It marks unresolvable activities invisible and numbers flow components densely.
  - The flow border gets a fixed header, optional `debug` and `additionalUpdateComponents` attributes, and parameter binding that starts from a preset matched set.
  - `assignFlowParameters` and `writeConnection` turn a component's declared parameters, the flow-level definitions and the activity-local definitions into an ordered list of attributes. The matched set fixes the precedence: unshadowed flow-level definitions, then activity-local definitions, then `attachedFlow`, then `async` / `updateComponents`, then every declared parameter by its own name.
- **The `fprop:` binding** (`FlowPropertyBinding`).
  - Its expression grammar is `key[=default[@component]]`. `Parse` is proved to invert `Render`, and the expression `writeConnection` emits parses back to the property and its scoped default.
  - Reads fall back from the flow state to the default and then to null.
  - Writes need an attached flow.
  - Validators are attached once.
  - Conversion failures distinguish a null value from a non-null one.
  - `toString` is modelled too.
- **The flow border** (`FlowBorder`).
  - Transition-list normalisation. A loop-based method is proved equal to a reference definition, with permutation and example lemmas.
  - The one/multiple-alternate booleans and the default button.
  - The refresh list and the flow-control rule.
  - Listener invocation, and the listener actions (`onNext`, `onUpdate`, `onFinish`, `onAltFinish`, `onOneAlternateFlow`, `onMultipleAlternateFlow`, `onCancel`, `onPrevious`). Each action is a pure function from the border and an abstract flow-state view to the ordered trace of effects it causes.

Modules: `Common` (null-able values, `String.indexOf`, `StringUtils.isBlank`), `FlowDefinitions`, `PropertyBinding`, `ParameterBinding`, `TemplateSynthesis`, `FlowBorder`, `BorderActions`.

Two behaviours of the code worth knowing, both modelled as written:

- In `writeConnection` (`FlowAwareTemplateSourceDelegate.java:350-363`), the guard tests the property `name` against the declared parameters and the matched set, and the default is looked up under that name, but the attribute written and the name marked matched are the `parameterName`. `ParameterBinding.SharedParameterWrittenTwice` shows the consequence: two properties aimed at one parameter both write it.
- The class comment (`FlowAwareTemplateSourceDelegate.java:64-70`) and the comment at line 337 speak of binding the *required* parameters left unbound. The loop at lines 338-341 offers every declared parameter by its own name, so afterwards every declared parameter is matched (`ParameterBinding.AssignFlowParameters`).

Constants the shown code takes from `FlowConstants` are assumptions:

- `FLOW_PROPERTY_PREFIX` is `fprop:`.
- `ATTACHED_FLOW` is `attachedFlow`.
- The listener and parameter names are the identifiers the code uses.
- `DEFAULT_FSFINISH_TEXT` stays symbolic, as `FlowBorder.Label.DefaultFinishText`.

## Model

| member | source | states |
|---|---|---|
| Common.IndexOf | src/main/java/org/amplafi/flow/web/bindings/FlowPropertyBinding.java:109-114 | The result is -1 exactly when the character does not occur at or after `from`; otherwise it is the first such position |
| FlowDefinitions.Governing | src/main/java/org/amplafi/flow/web/resolvers/FlowAwareTemplateSourceDelegate.java:310 | An activity's effective definition of a name is its local definition when it has one, otherwise the flow-level one, tagged by the map it came from |
| PropertyBinding.Parse | src/main/java/org/amplafi/flow/web/bindings/FlowPropertyBinding.java:106-133 | A null expression fails with IllegalArgumentException("no expression to evaluate"). A default exists exactly when some `=` is not the last character. Rendering the result gives back the input text |
| PropertyBinding.TrailingEqualsIsKey | src/main/java/org/amplafi/flow/web/bindings/FlowPropertyBinding.java:109-133 | "foo=" parses to the key "foo=" with no default, because a final `=` does not separate |
| PropertyBinding.AtBeforeEqualsIsKey | src/main/java/org/amplafi/flow/web/bindings/FlowPropertyBinding.java:112-120 | An `@` before the `=` belongs to the key, and the default then has no component: "a@b=c" gives key "a@b" and default "c" |
| PropertyBinding.ParseRender | src/main/java/org/amplafi/flow/web/bindings/FlowPropertyBinding.java:109-128 | Every well-formed expression survives rendering and parsing unchanged |
| PropertyBinding.ParseRenderScoped | src/main/java/org/amplafi/flow/web/bindings/FlowPropertyBinding.java:112-117 | `key=comp@default`, with no `=` in the key and no `@` in the component, parses to exactly (key, comp, default) |
| PropertyBinding.DefaultScope | src/main/java/org/amplafi/flow/web/bindings/FlowPropertyBinding.java:121-125 | The default is evaluated in a named child exactly when the component name is not blank, and in the flow component otherwise |
| PropertyBinding.ResolveScope | src/main/java/org/amplafi/flow/web/bindings/FlowPropertyBinding.java:121-125 | Construction fails with no-such-component exactly when the component name is not blank and names no child of the flow component; otherwise the scope is the one the name selects, and a named scope is an existing child |
| PropertyBinding.AddValidation | src/main/java/org/amplafi/flow/web/bindings/FlowPropertyBinding.java:252-264 | Validators are attached exactly when the target is a validatable form component with no `validators` binding and the definition has validators. Otherwise nothing changes, and existing bindings are never altered |
| PropertyBinding.AddValidationIdempotent | src/main/java/org/amplafi/flow/web/bindings/FlowPropertyBinding.java:252-264 | Attaching validators twice is the same as attaching them once |
| PropertyBinding.Read | src/main/java/org/amplafi/flow/web/bindings/FlowPropertyBinding.java:184-204 | With a flow state, validators are attached first. A read fails exactly when the stored value is unreadable. A stored value wins; otherwise the result is the default when there is a default clause, else null |
| PropertyBinding.GetObject | src/main/java/org/amplafi/flow/web/bindings/FlowPropertyBinding.java:153-171 | Read failures pass through. A converted value is returned. A failed conversion names the class, target type and value of a non-null raw value, or reads "Error converting a null" |
| PropertyBinding.ConversionMessagesDistinct | src/main/java/org/amplafi/flow/web/bindings/FlowPropertyBinding.java:164-169 | The non-null conversion message never equals the null one |
| PropertyBinding.Write | src/main/java/org/amplafi/flow/web/bindings/FlowPropertyBinding.java:213-222 | With no attached flow, the write fails with IllegalStateException and nothing is written. Otherwise exactly the key changes and every other property is kept |
| PropertyBinding.ReadAfterWrite | src/main/java/org/amplafi/flow/web/bindings/FlowPropertyBinding.java:184-222 | Read and write address the same flow property key: a non-null value written is read back, and a null written reads as the default, or null when there is none (given a store that returns what was set) |
| PropertyBinding.ToString | src/main/java/org/amplafi/flow/web/bindings/FlowPropertyBinding.java:229-232 | The identity, then `[expression=key`, then ` defaultValue=d` exactly when there is a default, and a closing `]` |
| PropertyBinding.ToStringReadsBack | src/main/java/org/amplafi/flow/web/bindings/FlowPropertyBinding.java:229-232 | For space-free keys, two bindings with the same identity and the same text have the same key, the same presence of a default and the same default expression |
| ParameterBinding.FindParameter | src/main/java/org/amplafi/flow/web/resolvers/FlowAwareTemplateSourceDelegate.java:352-354 | A lookup in the declared parameters returns a parameter with that name, and misses exactly when none has it |
| ParameterBinding.WriteConnection | src/main/java/org/amplafi/flow/web/resolvers/FlowAwareTemplateSourceDelegate.java:350-363 | It writes exactly when the property name is declared and unmatched. It then appends one `parameterName` attribute and adds `parameterName` to the matched set. The value is `fprop:` plus an expression the binding parses back to the property, with the declared default scoped to this component exactly when that default is not blank |
| ParameterBinding.ConnectionRoundTrip | src/main/java/org/amplafi/flow/web/resolvers/FlowAwareTemplateSourceDelegate.java:353-359 | The emitted expression parses to the property name, with the default scoped to the component when it is not blank and no default otherwise |
| ParameterBinding.ConnectionScope | src/main/java/org/amplafi/flow/web/resolvers/FlowAwareTemplateSourceDelegate.java:358-359 | A non-blank default written for a non-blank component is evaluated in that child; for a blank component it is evaluated in the flow component |
| ParameterBinding.BindingValueInjective | src/main/java/org/amplafi/flow/web/resolvers/FlowAwareTemplateSourceDelegate.java:353-359 | Distinct `=`-free property names never produce the same attribute value |
| ParameterBinding.ConnectAll | src/main/java/org/amplafi/flow/web/resolvers/FlowAwareTemplateSourceDelegate.java:307-321 | A pass only appends. Every attribute it writes binds a declared property unmatched at the start, through that offer's parameter name. Every newly matched name is some offer's parameter |
| ParameterBinding.ConnectReaches | src/main/java/org/amplafi/flow/web/resolvers/FlowAwareTemplateSourceDelegate.java:350-363 | An offer whose property is declared and unmatched, and that no earlier offer claimed, gets its attribute written |
| ParameterBinding.ConnectCovers | src/main/java/org/amplafi/flow/web/resolvers/FlowAwareTemplateSourceDelegate.java:337-341 | Offers aimed at their own name leave every declared one of them matched |
| ParameterBinding.SharedParameterWrittenTwice | src/main/java/org/amplafi/flow/web/resolvers/FlowAwareTemplateSourceDelegate.java:350-363 | Because the guard reads the property name but the matched set records the parameter name, two declared properties offered for one third parameter both write it |
| ParameterBinding.Offered | src/main/java/org/amplafi/flow/web/resolvers/FlowAwareTemplateSourceDelegate.java:307-314 | A flow-level definition is offered exactly when there is no activity, or when the activity's effective definition of its name is that same flow-level definition |
| ParameterBinding.ShadowedNotOffered | src/main/java/org/amplafi/flow/web/resolvers/FlowAwareTemplateSourceDelegate.java:308-312 | An offered flow-level definition has no activity-local definition of the same name, and is the flow-level definition of its name |
| ParameterBinding.AllOfferedWithoutActivity | src/main/java/org/amplafi/flow/web/resolvers/FlowAwareTemplateSourceDelegate.java:310 | With no activity, every flow-level definition is offered, in order |
| ParameterBinding.ConnectFixed | src/main/java/org/amplafi/flow/web/resolvers/FlowAwareTemplateSourceDelegate.java:327-330 | A fixed binding is written exactly when the parameter is declared and unmatched; then only that attribute and that name are added |
| ParameterBinding.ConnectFixedParameters | src/main/java/org/amplafi/flow/web/resolvers/FlowAwareTemplateSourceDelegate.java:331-336 | The matched set grows by exactly the declared fixed names. Each new attribute is a declared, previously unmatched fixed name bound to `ognl:` plus that name |
| ParameterBinding.StructuralPass | src/main/java/org/amplafi/flow/web/resolvers/FlowAwareTemplateSourceDelegate.java:323-336 | `attachedFlow` is bound to `ognl:flowToUse`, and `async` / `updateComponents` to `ognl:<name>`. Each happens only when declared and unmatched, so no earlier match is overridden, and only those three names join the matched set |
| ParameterBinding.AssignFlowParameters | src/main/java/org/amplafi/flow/web/resolvers/FlowAwareTemplateSourceDelegate.java:300-342 | The caller's matched names stay matched and every declared parameter ends up matched. Every attribute binds a declared property not matched by the caller, or is a structural binding of an unmatched name |
| ParameterBinding.ProvenanceOfAll | src/main/java/org/amplafi/flow/web/resolvers/FlowAwareTemplateSourceDelegate.java:300-342 | Each of the four passes writes only attributes accounted for by a declared property or a structural binding |
| ParameterBinding.FlowPassSkipsShadowed | src/main/java/org/amplafi/flow/web/resolvers/FlowAwareTemplateSourceDelegate.java:306-314 | The flow-level pass never binds a property that the activity defines locally |
| ParameterBinding.ActivityDefinitionBound | src/main/java/org/amplafi/flow/web/resolvers/FlowAwareTemplateSourceDelegate.java:316-321 | An activity-local definition that nothing earlier claimed is written, through its own parameter name |
| ParameterBinding.FallbackBindsByName | src/main/java/org/amplafi/flow/web/resolvers/FlowAwareTemplateSourceDelegate.java:337-341 | A declared, non-structural parameter that no definition targets and the caller did not match is bound to the property of its own name |
| TemplateSynthesis.EmittedActivities | src/main/java/org/amplafi/flow/web/resolvers/FlowAwareTemplateSourceDelegate.java:215-239 | The activities that get a block are activities of the flow whose component is named and resolves |
| TemplateSynthesis.CreateActivityBlocks | src/main/java/org/amplafi/flow/web/resolvers/FlowAwareTemplateSourceDelegate.java:214-239 | A blank component is skipped and left as it is; an unresolvable one is marked invisible. The k-th block belongs to the k-th emitting activity and holds flow component number k. With dense activity indices, block indices increase and the k-th is at least k |
| TemplateSynthesis.ResolutionStable | src/main/java/org/amplafi/flow/web/resolvers/FlowAwareTemplateSourceDelegate.java:216-228 | The loop hides only activities that get no block: the resolved activities emit exactly the blocks the originals do, and a second resolution pass changes nothing |
| TemplateSynthesis.BorderAttributes | src/main/java/org/amplafi/flow/web/resolvers/FlowAwareTemplateSourceDelegate.java:241-265 | The header comes first. Before parameter binding, `debug` and `additionalUpdateComponents` appear only as configured, in that order. Every binding after them is `attachedFlow` or binds a property outside the preset |
| TemplateSynthesis.BorderBindingsOutsidePreset | src/main/java/org/amplafi/flow/web/resolvers/FlowAwareTemplateSourceDelegate.java:258-265 | Starting from the preset matched set, the border's binding never structurally binds a preset parameter and never binds a preset property |
| TemplateSynthesis.ConfiguredOnly | src/main/java/org/amplafi/flow/web/resolvers/FlowAwareTemplateSourceDelegate.java:252-257 | The header never names `debug` or `additionalUpdateComponents`, so in the border's leading attributes those appear only with their configured values |
| TemplateSynthesis.BorderSeesAllFlowDefinitions | src/main/java/org/amplafi/flow/web/resolvers/FlowAwareTemplateSourceDelegate.java:265 | With no activity, the border is offered every flow-level definition |
| TemplateSynthesis.FindTemplate | src/main/java/org/amplafi/flow/web/resolvers/FlowAwareTemplateSourceDelegate.java:159-181 | Only a full flow component gets a template. An unknown flow gives the "not found" placeholder and an empty one gives the "has no activites" placeholder. A generated template carries the flow's name, one block per emitted activity holding that activity's parameter bindings under dense component ordinals, the activities exactly as the loop leaves them and the border's attributes |
| FlowBorder.DropCompleting | src/main/java/org/amplafi/flow/web/components/FlowBorder.java:157-162 | A transition is kept exactly when it is configured and not completing |
| FlowBorder.DropCompletingAppend | src/main/java/org/amplafi/flow/web/components/FlowBorder.java:157-162 | Dropping commutes with concatenation, so kept transitions keep their relative order |
| FlowBorder.FirstNormal | src/main/java/org/amplafi/flow/web/components/FlowBorder.java:166-173 | The found position holds a normal transition and no earlier one is normal; nothing is found exactly when none is normal |
| FlowBorder.WithoutFirstNormalAt | src/main/java/org/amplafi/flow/web/components/FlowBorder.java:166-173 | Taking out the first normal transition leaves everything before it followed by everything after it |
| FlowBorder.DefaultFinish | src/main/java/org/amplafi/flow/web/components/FlowBorder.java:164-176 | The default finish is normal: the first normal transition when one exists, otherwise the synthesised one |
| FlowBorder.FlowTransitions | src/main/java/org/amplafi/flow/web/components/FlowBorder.java:155-180 | Without a finish, exactly the non-completing transitions remain. With one, a normal transition is first and the length is n, or n+1 when none was normal |
| FlowBorder.FlowTransitionsPermutes | src/main/java/org/amplafi/flow/web/components/FlowBorder.java:163-178 | With a finish, the list is a permutation of the configured transitions, plus the synthesised finish when none is normal |
| FlowBorder.NormaliseTransitions | src/main/java/org/amplafi/flow/web/components/FlowBorder.java:155-180 | The iterator loops compute the reference list: dropping completing transitions, or moving the first normal transition (or a synthesised one) to index 0 |
| FlowBorder.PromotionExample | src/main/java/org/amplafi/flow/web/components/FlowBorder.java:163-178 | With a finish, [alternate A, normal N, alternate B] becomes [N, A, B] |
| FlowBorder.AlternatesExclusive | src/main/java/org/amplafi/flow/web/components/FlowBorder.java:386-394 | A finishable flow has exactly one of "one alternate" and "multiple alternates"; a flow that cannot finish has neither |
| FlowBorder.OneAlternateExactly | src/main/java/org/amplafi/flow/web/components/FlowBorder.java:386-406 | There is one alternate exactly when the flow can finish and either no transition is configured or the only one is normal |
| FlowBorder.DefaultButtonShown | src/main/java/org/amplafi/flow/web/components/FlowBorder.java:448-456 | When the flow can advance or finish, the default button names a control the border shows |
| FlowBorder.DefaultButtonIsNext | src/main/java/org/amplafi/flow/web/components/FlowBorder.java:448-456 | The default button is `next` exactly when there is a next step |
| FlowBorder.ComponentsToRefresh | src/main/java/org/amplafi/flow/web/components/FlowBorder.java:211-222 | The result is null exactly when not asynchronous; otherwise the found components come first, followed by the additional ones |
| FlowBorder.RefreshListContents | src/main/java/org/amplafi/flow/web/components/FlowBorder.java:211-222 | When asynchronous, the list holds exactly the found and the additional components, as many as both together; a null and an empty additional list both give the found components alone |
| FlowBorder.VisibleActivities | src/main/java/org/amplafi/flow/web/components/FlowBorder.java:467-470 | An activity is listed exactly when it is not invisible |
| FlowBorder.MoreThanOneVisible | src/main/java/org/amplafi/flow/web/components/FlowBorder.java:467-470 | More than one activity is visible exactly when two distinct positions hold visible activities |
| FlowBorder.IncludeFlowControl | src/main/java/org/amplafi/flow/web/components/FlowBorder.java:466-470 | Flow control is included exactly when neither hide flag is set and two distinct activities are visible |
| FlowBorder.InvokedListeners | src/main/java/org/amplafi/flow/web/components/FlowBorder.java:358-364 | A listener is invoked exactly when it is one of the non-null arguments |
| FlowBorder.InvokedInOrder | src/main/java/org/amplafi/flow/web/components/FlowBorder.java:358-364 | Listeners run in argument order and null ones are skipped |
| BorderActions.Invocations | src/main/java/org/amplafi/flow/web/components/FlowBorder.java:358-364 | One invocation per non-null listener, in order, and nothing else |
| BorderActions.ActivateIfNotNull | src/main/java/org/amplafi/flow/web/components/FlowBorder.java:241 | A page is activated exactly when there is one |
| BorderActions.OnNext | src/main/java/org/amplafi/flow/web/components/FlowBorder.java:300-328 | Nothing happens when the form has errors. `next()` is called exactly when the current result is valid. An invalid result goes to the handler. A page is activated exactly when the move yields an activity with a page. The action causes nothing but listener calls, `next()`, an activation and a hand-over. Listeners run first and the action ends at most once |
| BorderActions.OnUpdate | src/main/java/org/amplafi/flow/web/components/FlowBorder.java:335-346 | The update listener runs regardless of the form's state, and the flow never moves. A valid result re-activates the current page; an invalid one goes to the handler |
| BorderActions.OnFinish | src/main/java/org/amplafi/flow/web/components/FlowBorder.java:224-246 | Nothing happens when the form has errors. Otherwise the finish and end listeners run and then the flow is finished with its pending key. The page comes from the new current flow when there is one, else from finishing. A rejection goes to the handler. Nothing else happens: no move, cancel, morph or key change |
| BorderActions.OnAltFinish | src/main/java/org/amplafi/flow/web/components/FlowBorder.java:262-273 | A morphing transition morphs with its next flow type and initial values and then at most activates the page, never finishing. Any other transition sets the finish key to its map key and then finishes with that key |
| BorderActions.OnOneAlternateFlow | src/main/java/org/amplafi/flow/web/components/FlowBorder.java:248-251 | With a finish, the single alternate is the default finish, which never morphs. An empty list throws |
| BorderActions.OnMultipleAlternateFlow | src/main/java/org/amplafi/flow/web/components/FlowBorder.java:253-256 | The selected transition is used; no selection throws |
| BorderActions.OnCancel | src/main/java/org/amplafi/flow/web/components/FlowBorder.java:275-281 | The cancel and end listeners run, then the flow is cancelled, with no validation and no form-error guard. Its page is activated when there is one. Nothing else happens |
| BorderActions.OnPrevious | src/main/java/org/amplafi/flow/web/components/FlowBorder.java:283-293 | The previous listener runs, then the flow moves back. The page is activated when the previous activity names one. No previous activity throws, and a rejection goes to the handler. Nothing else happens |
| BorderActions.FinishListenersInOrder | src/main/java/org/amplafi/flow/web/components/FlowBorder.java:224-233 | With both listeners set, the finish listener runs, then the end listener, then the flow is finished |
| BorderActions.CancelListenersInOrder | src/main/java/org/amplafi/flow/web/components/FlowBorder.java:275-281 | With both listeners set, the cancel listener runs, then the end listener, then the flow is cancelled |
| BorderActions.AltFinishWithErrorsOnlySetsKey | src/main/java/org/amplafi/flow/web/components/FlowBorder.java:262-273 | On a form with errors, a non-morphing alternate finish still sets the finish key; the error check inside finish then stops it |
| BorderActions.OneAlternateFinishes | src/main/java/org/amplafi/flow/web/components/FlowBorder.java:248-251 | On a clean form, the one-alternate action sets the default finish's key and finishes |
| BorderActions.InvalidNextDoesNotMove | src/main/java/org/amplafi/flow/web/components/FlowBorder.java:300-328 | On an invalid current activity, onNext only runs its listener and hands the result over: the flow does not move |
| BorderActions.UpdateNeverMoves | src/main/java/org/amplafi/flow/web/components/FlowBorder.java:335-346 | Update never calls next, previous, finish or cancel |

## Left out

- Reflection in `findParameters` (`Class.forName`, annotation scanning) is left out. The declared parameters are an input sequence, and its order stands for the map's iteration order.
- The markup writer, the static markup around the blocks and border, the template parser, `MemoryMappedLocation` and `constructTemplateInstance` are left out. Blocks and the border are modelled as attribute lists.
- Component resolution is not modelled as a call. It is a map from component type to declared parameters. A flow border that does not resolve throws from `resolve`, and the model reports this as `BorderUnresolved`.
- `FlowWebUtils.getBlockName` and `getFlowComponentName` are not part of this model. A block keeps its activity index, and the flow-component name is an input function of the ordinal.
- OGNL evaluation of the default (`BindingSource.createBinding`, `getObject(expected)`) is an input value. `ValueConverter.coerceValue` is an input function.
- `FlowState`, `FlowActivity`, `FlowManagement` and `FlowTransition` internals are not part of this model. They are answers in `BorderActions.FlowStateView`, `PropertyBinding.FlowState` and the `Transition` fields (`completing`, `kind`), and `hasNext` / `hasFinish` are inputs.
- The completing flag of the synthesised finish transition is not shown, so it is taken as true. The flag is only read when the flow cannot finish, and the synthesised transition exists only when it can.
- `FlowWebUtils.activatePageIfNotNull`, listener invocation and the result handler are recorded as effects, not performed.
- Labels, messages, `processLabel`, selection models, `getDefaultButtonId`, the renderers, `renderComponent` / redirect scripts, `cleanupAfterRender`, `FlowBorder.get` and `@Cached` caching are left out as UI plumbing.
- A null `getFsFlowTransitions()` is not modelled: the input is the map's values in order, because the code dereferences the map without a check.
- `Defense.notNull` on the constructor arguments and on the target type is not modelled. The type is a string name.
- `FlowPropertyBindingFactory`, `FlowService`, `FlowProvider` and `FlowResultHandler` are interfaces or thin wrappers with no logic of their own.
- Debug logging is left out.
- PropertyBinding.ReadAfterWrite: the flow state's property store is modelled as a map, so `getPropertyAsObject(key, expected)` returns what `setPropertyAsObject(key, value)` stored whatever the expected type. The flow state's conversion on read is not part of this model, so read-after-write is proved only for a store that returns what was set.
- The exception `getComponent` throws for a missing child is modelled only as `NoSuchComponent` with the child's name; its message text is Tapestry's and is not part of this model.
- Strings are sequences of Dafny characters. `Character.isWhitespace` is modelled over those characters, not over UTF-16 code units.
- TemplateSynthesis.BorderAttributes: its "only when configured" property covers the attributes before parameter binding. A flow-level definition whose parameter name is `debug` can still write a `debug` attribute during binding, as `ParameterBinding.SharedParameterWrittenTwice` illustrates for the name/parameter split.
- ParameterBinding.WriteConnection: the round trip of the written value is stated for `=`-free property names and `@`-free component names, because other names cannot be parsed back unambiguously.
