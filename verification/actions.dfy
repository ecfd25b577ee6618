/**
 * The flow border's listeners: each user action is a function from the
 * border and an abstract view of the attached flow state to the trace of
 * effects it causes, in order. Listener invocation, flow-state calls, page
 * activation and handing a validation result to the result handler are
 * recorded, not performed.
 */
module BorderActions {
  import opened Common
  import opened FlowBorder

  /** A FlowValidationResult: whether it is valid, and what it reports. */
  datatype ValidationResult = ValidationResult(valid: bool, report: string)

  /** A page listener supplied to the border. */
  datatype Listener = Listener(name: string)

  /** The border's listener parameters; each may be null. */
  datatype Listeners = Listeners(
    end: Option<Listener>,
    cancel: Option<Listener>,
    next: Option<Listener>,
    previous: Option<Listener>,
    finish: Option<Listener>,
    update: Option<Listener>)

  /** The border as its listeners see it: whether the form's delegate has errors, and the listener parameters. */
  datatype Border = Border(formHasErrors: bool, listeners: Listeners)

  /**
   * What moving the flow state one activity returns: an activity with its
   * page name (which may be null), no activity (null), or a
   * FlowValidationException carrying its result.
   */
  datatype Step = Moved(pageName: Option<string>) | NoActivity | StepRejected(result: ValidationResult)

  /** What finishFlow returns: the page to show (which may be null), or a FlowValidationException's result. */
  datatype FinishOutcome = Finished(page: Option<string>) | FinishRejected(result: ValidationResult)

  /**
   * The attached flow state, reduced to the answers its methods give:
   * the current activity's validation result, the outcome of next() and
   * previous(), the current page, the pending finish key, the outcome of
   * finishFlow for a given finish key, the current flow the flow
   * management reports after finishing (null, or that flow's current
   * page), the page cancelFlow returns, and the page morphFlow returns for
   * a flow type and initial values.
   */
  datatype FlowStateView = FlowStateView(
    validation: ValidationResult,
    next: Step,
    previous: Step,
    currentPage: Option<string>,
    finishKey: Option<string>,
    finishWith: Option<string> -> FinishOutcome,
    currentAfterFinish: Option<Option<string>>,
    cancelPage: Option<string>,
    morphPage: (Option<string>, map<string, string>) -> Option<string>)

  /** Which flow state a page is activated with. */
  datatype FlowRef = Attached | NewCurrent

  /** The exception an action ends in when it dereferences null or indexes an empty list. */
  datatype FaultKind = NullReference | IndexOutOfRange

  /** One observable effect of an action. */
  datatype Effect =
    | Invoke(listener: Listener)
    | CallNext
    | CallPrevious
    | CallFinish
    | CallCancel
    | CallMorph(flowType: Option<string>, values: map<string, string>)
    | SetFinishKey(key: Option<string>)
    | Activate(page: string, flow: FlowRef)
    | Handle(result: ValidationResult)
    | Fault(kind: FaultKind)

  /** The effects that end an action: activating a page, handing over a result, or an exception. */
  predicate Concludes(e: Effect)
  {
    e.Activate? || e.Handle? || e.Fault?
  }

  /** An action ends in at most one way. */
  predicate AtMostOneConclusion(r: seq<Effect>)
  {
    forall i, j :: 0 <= i < j < |r| && Concludes(r[i]) ==> !Concludes(r[j])
  }

  /** Every listener runs before anything else the action does. */
  predicate ListenersFirst(r: seq<Effect>)
  {
    forall i, j :: 0 <= i < j < |r| && r[j].Invoke? ==> r[i].Invoke?
  }

  /** The set activations of a trace, as (page, flow) pairs. */
  predicate Activates(r: seq<Effect>, page: string, flow: FlowRef)
  {
    Activate(page, flow) in r
  }

  // ---------------------------------------------------------------------------
  // Building blocks
  // ---------------------------------------------------------------------------

  /** invokeIfNotNull: one invocation per listener that is set, in argument order. */
  function Invocations(ls: seq<Option<Listener>>): (r: seq<Effect>)
    ensures |r| == |InvokedListeners(ls)|
    ensures forall k :: 0 <= k < |r| ==> r[k] == Invoke(InvokedListeners(ls)[k])
    ensures forall l :: Invoke(l) in r <==> Some(l) in ls
    ensures forall e :: e in r ==> e.Invoke?
  {
    var xs := InvokedListeners(ls);
    var r := seq(|xs|, k requires 0 <= k < |xs| => Invoke(xs[k]));
    assert forall l :: Invoke(l) in r <==> l in xs by {
      forall l | l in xs
        ensures Invoke(l) in r
      {
        var k :| 0 <= k < |xs| && xs[k] == l;
        assert r[k] == Invoke(l);
      }
    }
    r
  }

  /** FlowWebUtils.activatePageIfNotNull: activate the page only when there is one. */
  function ActivateIfNotNull(page: Option<string>, flow: FlowRef): (r: seq<Effect>)
    ensures |r| <= 1
    ensures forall p, f :: Activate(p, f) in r <==> page == Some(p) && f == flow
    ensures forall e :: e in r ==> e.Activate?
  {
    if page.Some? then [Activate(page.value, flow)] else []
  }

  /**
   * Listeners, then calls that neither invoke nor conclude, then at most
   * one concluding effect: listeners run first and the action ends once.
   */
  lemma Sequenced(inv: seq<Effect>, calls: seq<Effect>, tail: seq<Effect>)
    requires forall e :: e in inv ==> e.Invoke?
    requires forall e :: e in calls ==> !e.Invoke? && !Concludes(e)
    requires |tail| <= 1 && forall e :: e in tail ==> !e.Invoke?
    ensures ListenersFirst(inv + calls + tail)
    ensures AtMostOneConclusion(inv + calls + tail)
  {
    var r := inv + calls + tail;
    forall i, j | 0 <= i < j < |r|
      ensures r[j].Invoke? ==> r[i].Invoke?
      ensures !(Concludes(r[i]) && Concludes(r[j]))
    {
      if j < |inv| {
        assert r[i] == inv[i] && inv[i] in inv;
      } else if j < |inv| + |calls| {
        assert r[j] == calls[j - |inv|] && calls[j - |inv|] in calls;
      } else {
        assert r[j] == tail[j - |inv| - |calls|] && tail[j - |inv| - |calls|] in tail;
      }
      if i < |inv| {
        assert r[i] == inv[i] && inv[i] in inv;
      } else {
        assert i < |inv| + |calls|;
        assert r[i] == calls[i - |inv|] && calls[i - |inv|] in calls;
      }
    }
  }

  /** Effects that do not conclude, put in front, keep an action ending at most once. */
  lemma Prefixed(pre: seq<Effect>, r: seq<Effect>)
    requires forall e :: e in pre ==> !Concludes(e)
    requires AtMostOneConclusion(r)
    ensures AtMostOneConclusion(pre + r)
  {
    var t := pre + r;
    forall i, j | 0 <= i < j < |t|
      ensures !(Concludes(t[i]) && Concludes(t[j]))
    {
      if i < |pre| {
        assert t[i] == pre[i] && pre[i] in pre;
      } else {
        assert t[i] == r[i - |pre|] && t[j] == r[j - |pre|];
      }
    }
  }

  // ---------------------------------------------------------------------------
  // The actions
  // ---------------------------------------------------------------------------

  /**
   * onNext: nothing when the form has errors. Otherwise the next listener
   * runs; an invalid current activity hands its result over without
   * moving; a valid one moves on and activates the next activity's page,
   * when there is such an activity and it names a page.
   */
  function OnNext(b: Border, s: FlowStateView): (r: seq<Effect>)
    ensures b.formHasErrors ==> r == []
    ensures !b.formHasErrors ==>
              var inv := Invocations([b.listeners.next]);
              |inv| <= |r| && r[..|inv|] == inv
    ensures CallNext in r <==> !b.formHasErrors && s.validation.valid
    ensures forall v :: Handle(v) in r <==>
              !b.formHasErrors &&
              ((!s.validation.valid && v == s.validation) || (s.validation.valid && s.next == StepRejected(v)))
    ensures forall p, f :: Activates(r, p, f) <==>
              !b.formHasErrors && s.validation.valid && s.next == Moved(Some(p)) && f == Attached
    ensures forall e :: e in r ==> e.Invoke? || e == CallNext || e.Activate? || e.Handle?
    ensures ListenersFirst(r) && AtMostOneConclusion(r)
  {
    if b.formHasErrors then []
    else
      var inv := Invocations([b.listeners.next]);
      var calls := if s.validation.valid then [CallNext] else [];
      var tail :=
        if !s.validation.valid then [Handle(s.validation)]
        else match s.next
          case Moved(page) => ActivateIfNotNull(page, Attached)
          case NoActivity => []
          case StepRejected(result) => [Handle(result)];
      Sequenced(inv, calls, tail);
      inv + calls + tail
  }

  /**
   * onUpdate: the update listener runs, whatever the form's state; a valid
   * current activity re-activates the current page, an invalid one hands
   * its result over. The flow never moves.
   */
  function OnUpdate(b: Border, s: FlowStateView): (r: seq<Effect>)
    ensures var inv := Invocations([b.listeners.update]);
            |inv| <= |r| && r[..|inv|] == inv
    ensures forall e :: e in r ==> e.Invoke? || e.Activate? || e.Handle?
    ensures forall p, f :: Activates(r, p, f) <==> s.validation.valid && s.currentPage == Some(p) && f == Attached
    ensures forall v :: Handle(v) in r <==> !s.validation.valid && v == s.validation
    ensures ListenersFirst(r) && AtMostOneConclusion(r)
  {
    var inv := Invocations([b.listeners.update]);
    var tail := if s.validation.valid then ActivateIfNotNull(s.currentPage, Attached) else [Handle(s.validation)];
    Sequenced(inv, [], tail);
    assert inv + [] + tail == inv + tail;
    inv + tail
  }

  /**
   * onFinish: nothing when the form has errors. Otherwise the finish and
   * end listeners run, the flow is finished with its pending finish key,
   * and the page to show comes from the flow that is current afterwards
   * when there is one, else from finishing. A rejected finish hands its
   * result over.
   */
  function OnFinish(b: Border, s: FlowStateView): (r: seq<Effect>)
    ensures b.formHasErrors ==> r == []
    ensures !b.formHasErrors ==>
              var inv := Invocations([b.listeners.finish, b.listeners.end]);
              |inv| < |r| && r[..|inv|] == inv && r[|inv|] == CallFinish
    ensures CallFinish in r <==> !b.formHasErrors
    ensures forall p, f :: Activates(r, p, f) <==>
              && !b.formHasErrors
              && s.finishWith(s.finishKey).Finished?
              && (if s.currentAfterFinish.Some?
                  then s.currentAfterFinish.value == Some(p) && f == NewCurrent
                  else s.finishWith(s.finishKey).page == Some(p) && f == Attached)
    ensures forall v :: Handle(v) in r <==> !b.formHasErrors && s.finishWith(s.finishKey) == FinishRejected(v)
    ensures forall e :: e in r ==> e.Invoke? || e == CallFinish || e.Activate? || e.Handle?
    ensures ListenersFirst(r) && AtMostOneConclusion(r)
  {
    if b.formHasErrors then []
    else
      var inv := Invocations([b.listeners.finish, b.listeners.end]);
      var tail :=
        match s.finishWith(s.finishKey)
        case Finished(page) =>
          if s.currentAfterFinish.Some? then ActivateIfNotNull(s.currentAfterFinish.value, NewCurrent)
          else ActivateIfNotNull(page, Attached)
        case FinishRejected(result) => [Handle(result)];
      Sequenced(inv, [CallFinish], tail);
      inv + [CallFinish] + tail
  }

  /**
   * onAltFinish: a morphing transition morphs the attached flow into its
   * next flow type with its initial values and activates the page that
   * returns, never finishing; any other transition sets the pending
   * finish key to its map key and then finishes.
   */
  function OnAltFinish(b: Border, s: FlowStateView, t: Transition): (r: seq<Effect>)
    ensures |r| > 0 && !r[0].Fault?
    ensures IsMorphing(t) ==>
              && r[0] == CallMorph(t.nextFlowType, t.initialValues)
              && CallFinish !in r
              && (forall e :: e in r ==> e.CallMorph? || e.Activate?)
              && (forall p, f :: Activates(r, p, f) <==> s.morphPage(t.nextFlowType, t.initialValues) == Some(p) && f == Attached)
    ensures !IsMorphing(t) ==>
              && r[0] == SetFinishKey(t.mapKey)
              && r[1..] == OnFinish(b, s.(finishKey := t.mapKey))
              && (CallFinish in r <==> !b.formHasErrors)
              && (forall v :: Handle(v) in r <==> !b.formHasErrors && s.finishWith(t.mapKey) == FinishRejected(v))
              && (forall e :: e in r ==> !e.CallMorph?)
    ensures AtMostOneConclusion(r)
  {
    if IsMorphing(t) then
      MorphTrace(s, t);
      [CallMorph(t.nextFlowType, t.initialValues)] + ActivateIfNotNull(s.morphPage(t.nextFlowType, t.initialValues), Attached)
    else
      KeyedFinishTrace(b, s, t.mapKey);
      [SetFinishKey(t.mapKey)] + OnFinish(b, s.(finishKey := t.mapKey))
  }

  /** The morphing branch of onAltFinish: the morph, then at most the page it returns. */
  lemma MorphTrace(s: FlowStateView, t: Transition)
    ensures var r := [CallMorph(t.nextFlowType, t.initialValues)] + ActivateIfNotNull(s.morphPage(t.nextFlowType, t.initialValues), Attached);
            && CallFinish !in r
            && (forall e :: e in r ==> e.CallMorph? || e.Activate?)
            && (forall p, f :: Activates(r, p, f) <==> s.morphPage(t.nextFlowType, t.initialValues) == Some(p) && f == Attached)
            && AtMostOneConclusion(r)
  {
    var morph := CallMorph(t.nextFlowType, t.initialValues);
    var activation := ActivateIfNotNull(s.morphPage(t.nextFlowType, t.initialValues), Attached);
    Sequenced([], [morph], activation);
    var r := [morph] + activation;
    assert [] + [morph] + activation == r;
    assert forall e :: e in r ==> e == morph || e in activation;
  }

  /** The finishing branch of onAltFinish: the key is set, then onFinish runs with that key pending. */
  lemma KeyedFinishTrace(b: Border, s: FlowStateView, key: Option<string>)
    ensures var r := [SetFinishKey(key)] + OnFinish(b, s.(finishKey := key));
            && (CallFinish in r <==> !b.formHasErrors)
            && (forall v :: Handle(v) in r <==> !b.formHasErrors && s.finishWith(key) == FinishRejected(v))
            && (forall e :: e in r ==> !e.CallMorph?)
            && AtMostOneConclusion(r)
  {
    var finishing := OnFinish(b, s.(finishKey := key));
    Prefixed([SetFinishKey(key)], finishing);
    assert forall e :: e in [SetFinishKey(key)] + finishing ==> e == SetFinishKey(key) || e in finishing;
  }

  /**
   * onOneAlternateFlow: the alternate finish with the first offered
   * transition; an empty list makes get(0) throw.
   */
  function OnOneAlternateFlow(b: Border, s: FlowStateView, ts: seq<Transition>, hasFinish: bool): (r: seq<Effect>)
    ensures hasFinish ==> r == OnAltFinish(b, s, DefaultFinish(ts))
    ensures hasFinish ==> forall e :: e in r ==> !e.CallMorph?
    ensures |FlowTransitions(ts, hasFinish)| == 0 <==> r == [Fault(IndexOutOfRange)]
  {
    var offered := FlowTransitions(ts, hasFinish);
    if |offered| == 0 then [Fault(IndexOutOfRange)]
    else
      OnAltFinish(b, s, offered[0])
  }

  /**
   * onMultipleAlternateFlow: the alternate finish with the transition the
   * user selected; no selection makes the dereference throw.
   */
  function OnMultipleAlternateFlow(b: Border, s: FlowStateView, selected: Option<Transition>): (r: seq<Effect>)
    ensures selected.None? <==> r == [Fault(NullReference)]
    ensures selected.Some? ==> r == OnAltFinish(b, s, selected.value)
  {
    if selected.None? then [Fault(NullReference)]
    else OnAltFinish(b, s, selected.value)
  }

  /**
   * onCancel: the cancel and end listeners run, whatever the form's state
   * and without any validation; the flow is cancelled and the page it
   * returns is activated, when there is one.
   */
  function OnCancel(b: Border, s: FlowStateView): (r: seq<Effect>)
    ensures var inv := Invocations([b.listeners.cancel, b.listeners.end]);
            |inv| < |r| && r[..|inv|] == inv && r[|inv|] == CallCancel
    ensures forall e :: e in r ==> e.Invoke? || e == CallCancel || e.Activate?
    ensures forall p, f :: Activates(r, p, f) <==> s.cancelPage == Some(p) && f == Attached
    ensures ListenersFirst(r) && AtMostOneConclusion(r)
  {
    var inv := Invocations([b.listeners.cancel, b.listeners.end]);
    var tail := ActivateIfNotNull(s.cancelPage, Attached);
    Sequenced(inv, [CallCancel], tail);
    inv + [CallCancel] + tail
  }

  /**
   * onPrevious: the previous listener runs; the flow moves back and the
   * previous activity's page is activated, when it names one. No previous
   * activity makes the page-name lookup throw; a rejected move hands its
   * result over.
   */
  function OnPrevious(b: Border, s: FlowStateView): (r: seq<Effect>)
    ensures var inv := Invocations([b.listeners.previous]);
            |inv| < |r| && r[..|inv|] == inv && r[|inv|] == CallPrevious
    ensures Fault(NullReference) in r <==> s.previous == NoActivity
    ensures forall v :: Handle(v) in r <==> s.previous == StepRejected(v)
    ensures forall p, f :: Activates(r, p, f) <==> s.previous == Moved(Some(p)) && f == Attached
    ensures forall e :: e in r ==> e.Invoke? || e == CallPrevious || e.Activate? || e.Handle? || e == Fault(NullReference)
    ensures ListenersFirst(r) && AtMostOneConclusion(r)
  {
    var inv := Invocations([b.listeners.previous]);
    var tail :=
      match s.previous
      case Moved(page) => ActivateIfNotNull(page, Attached)
      case NoActivity => [Fault(NullReference)]
      case StepRejected(result) => [Handle(result)];
    Sequenced(inv, [CallPrevious], tail);
    inv + [CallPrevious] + tail
  }

  // ---------------------------------------------------------------------------
  // Properties relating the actions
  // ---------------------------------------------------------------------------

  /** With both listeners set, onFinish runs the finish listener, then the end listener, then finishes. */
  lemma FinishListenersInOrder(b: Border, s: FlowStateView, fin: Listener, end: Listener)
    requires !b.formHasErrors
    requires b.listeners.finish == Some(fin) && b.listeners.end == Some(end)
    ensures OnFinish(b, s)[..3] == [Invoke(fin), Invoke(end), CallFinish]
  {
    InvokedInOrder(b.listeners.finish, b.listeners.end);
  }

  /** With both listeners set, onCancel runs the cancel listener, then the end listener, then cancels. */
  lemma CancelListenersInOrder(b: Border, s: FlowStateView, cancel: Listener, end: Listener)
    requires b.listeners.cancel == Some(cancel) && b.listeners.end == Some(end)
    ensures OnCancel(b, s)[..3] == [Invoke(cancel), Invoke(end), CallCancel]
  {
    InvokedInOrder(b.listeners.cancel, b.listeners.end);
  }

  /**
   * A non-morphing alternate finish on a form with errors still sets the
   * finish key: the error check happens inside the finish that follows.
   */
  lemma AltFinishWithErrorsOnlySetsKey(b: Border, s: FlowStateView, t: Transition)
    requires b.formHasErrors && !IsMorphing(t)
    ensures OnAltFinish(b, s, t) == [SetFinishKey(t.mapKey)]
  {
  }

  /** The single alternate a finishable flow offers is its default finish, which never morphs. */
  lemma OneAlternateFinishes(b: Border, s: FlowStateView, ts: seq<Transition>)
    requires !b.formHasErrors
    ensures var r := OnOneAlternateFlow(b, s, ts, true);
            && r[0] == SetFinishKey(DefaultFinish(ts).mapKey)
            && CallFinish in r
  {
  }

  /** An invalid current activity stops onNext before the flow moves: only the listener runs and the result is handed over. */
  lemma InvalidNextDoesNotMove(b: Border, s: FlowStateView)
    requires !s.validation.valid
    ensures forall e :: e in OnNext(b, s) ==> e.Invoke? || e == Handle(s.validation)
  {
  }

  /** Update is onNext without moving: on a valid activity, update activates the current page rather than the next one. */
  lemma UpdateNeverMoves(b: Border, s: FlowStateView)
    ensures CallNext !in OnUpdate(b, s) && CallPrevious !in OnUpdate(b, s)
    ensures CallFinish !in OnUpdate(b, s) && CallCancel !in OnUpdate(b, s)
  {
  }
}
