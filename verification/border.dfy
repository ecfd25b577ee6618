/**
 * What the flow border shows: the normalised list of finishing
 * transitions, the booleans derived from it, the default button, the
 * components refreshed by an asynchronous submit and whether the flow
 * control is included.
 */
module FlowBorder {
  import opened Common
  import opened FlowDefinitions

  /** TransitionType: how a transition leaves the flow. */
  datatype TransitionType = Normal | Alternate | Morphing

  /** A transition label: configured text, or the default finish text. */
  datatype Label = Text(text: string) | DefaultFinishText

  /**
   * A FlowTransition: the key it is stored under (the finish key it
   * selects), its caption (label), its type, whether choosing it completes the flow,
   * and, for a morphing transition, the flow type to morph into and the
   * values that seed it.
   */
  datatype Transition = Transition(
    mapKey: Option<string>,
    caption: Label,
    kind: TransitionType,
    completing: bool,
    nextFlowType: Option<string>,
    initialValues: map<string, string>)

  /** isMorphingFlow. */
  predicate IsMorphing(t: Transition)
  {
    t.kind == Morphing
  }

  /** The transition synthesised when a finishable flow configures no normal one. */
  const SynthesisedFinish := Transition(None, DefaultFinishText, Normal, true, None, map[])

  // ---------------------------------------------------------------------------
  // getFlowTransitions: reference definitions
  // ---------------------------------------------------------------------------

  /** The configured transitions without the completing ones, in order. */
  function DropCompleting(ts: seq<Transition>): (r: seq<Transition>)
    ensures |r| <= |ts|
    ensures forall t :: t in r <==> t in ts && !t.completing
  {
    if |ts| == 0 then []
    else
      var init := DropCompleting(ts[..|ts| - 1]);
      assert ts == ts[..|ts| - 1] + [ts[|ts| - 1]];
      if ts[|ts| - 1].completing then init else init + [ts[|ts| - 1]]
  }

  /** Removing completing transitions commutes with concatenation, so the kept ones stay in order. */
  lemma {:induction false} DropCompletingAppend(a: seq<Transition>, b: seq<Transition>)
    ensures DropCompleting(a + b) == DropCompleting(a) + DropCompleting(b)
    decreases |b|
  {
    if |b| == 0 {
      assert a + b == a;
    } else {
      var b' := b[..|b| - 1];
      assert (a + b)[..|a + b| - 1] == a + b';
      assert (a + b)[|a + b| - 1] == b[|b| - 1];
      DropCompletingAppend(a, b');
    }
  }

  /** The position of the first normal transition, when there is one. */
  function FirstNormal(ts: seq<Transition>): (r: Option<nat>)
    ensures r.Some? ==> r.value < |ts| && ts[r.value].kind == Normal &&
                        forall j :: 0 <= j < r.value ==> ts[j].kind != Normal
    ensures r.None? <==> forall j :: 0 <= j < |ts| ==> ts[j].kind != Normal
  {
    if |ts| == 0 then None
    else if ts[0].kind == Normal then Some(0)
    else
      match FirstNormal(ts[1..])
      case None => None
      case Some(i) => Some(i + 1)
  }

  /** The configured transitions with the first normal one taken out, the rest in order. */
  function WithoutFirstNormal(ts: seq<Transition>): (r: seq<Transition>)
    ensures FirstNormal(ts).None? ==> r == ts
    ensures FirstNormal(ts).Some? ==> |r| == |ts| - 1
    ensures forall t :: t in r ==> t in ts
  {
    if |ts| == 0 then []
    else if ts[0].kind == Normal then ts[1..]
    else [ts[0]] + WithoutFirstNormal(ts[1..])
  }

  /**
   * Taking out the first normal transition is cutting it out at its
   * position: everything before it and everything after it.
   */
  lemma {:induction false} WithoutFirstNormalAt(ts: seq<Transition>, i: nat)
    requires i < |ts| && ts[i].kind == Normal
    requires forall j :: 0 <= j < i ==> ts[j].kind != Normal
    ensures WithoutFirstNormal(ts) == ts[..i] + ts[i + 1..]
  {
    if i > 0 {
      WithoutFirstNormalAt(ts[1..], i - 1);
      assert ts[1..][..i - 1] == ts[1..i];
      assert ts[1..][i - 1 + 1..] == ts[i + 1..];
      assert [ts[0]] + ts[1..i] == ts[..i];
    }
  }

  /** The default finish: the first normal transition, or the synthesised one. */
  function DefaultFinish(ts: seq<Transition>): (r: Transition)
    ensures r.kind == Normal
    ensures FirstNormal(ts).Some? ==> r == ts[FirstNormal(ts).value]
  {
    match FirstNormal(ts)
    case Some(i) => ts[i]
    case None => SynthesisedFinish
  }

  /**
   * The transitions offered by the border. Without a finish, the
   * non-completing ones. With a finish, the default finish first and the
   * remaining transitions after it.
   */
  function FlowTransitions(ts: seq<Transition>, hasFinish: bool): (r: seq<Transition>)
    ensures !hasFinish ==> forall t :: t in r <==> t in ts && !t.completing
    ensures hasFinish ==> |r| >= 1 && r[0].kind == Normal
    ensures hasFinish ==> |r| == (if FirstNormal(ts).Some? then |ts| else |ts| + 1)
    ensures hasFinish ==> forall t :: t in r[1..] ==> t in ts
  {
    if !hasFinish then DropCompleting(ts)
    else [DefaultFinish(ts)] + WithoutFirstNormal(ts)
  }

  /**
   * With a finish, the list is a permutation of the configured
   * transitions, plus the synthesised finish when none is normal.
   */
  lemma FlowTransitionsPermutes(ts: seq<Transition>)
    ensures FirstNormal(ts).Some? ==> multiset(FlowTransitions(ts, true)) == multiset(ts)
    ensures FirstNormal(ts).None? ==> multiset(FlowTransitions(ts, true)) == multiset(ts) + multiset{SynthesisedFinish}
  {
    if FirstNormal(ts).Some? {
      var i := FirstNormal(ts).value;
      WithoutFirstNormalAt(ts, i);
      assert FlowTransitions(ts, true) == [ts[i]] + (ts[..i] + ts[i + 1..]);
      PromotedPermutes(ts, i);
    } else {
      assert FlowTransitions(ts, true) == [SynthesisedFinish] + ts;
    }
  }

  /** Moving the element at `i` to the front keeps the multiset. */
  lemma PromotedPermutes(ts: seq<Transition>, i: nat)
    requires i < |ts|
    ensures multiset([ts[i]] + (ts[..i] + ts[i + 1..])) == multiset(ts)
  {
    assert ts == ts[..i] + ([ts[i]] + ts[i + 1..]);
  }

  // ---------------------------------------------------------------------------
  // getFlowTransitions: the iterator loops
  // ---------------------------------------------------------------------------

  /**
   * getFlowTransitions as the code walks the list: without a finish, an
   * iterator drops every completing transition; with a finish, the first
   * normal transition is removed and reinserted at index 0, or the
   * synthesised finish is inserted there.
   */
  method NormaliseTransitions(ts: seq<Transition>, hasFinish: bool) returns (r: seq<Transition>)
    ensures r == FlowTransitions(ts, hasFinish)
  {
    if !hasFinish {
      r := [];
      var i := 0;
      while i < |ts|
        invariant 0 <= i <= |ts|
        invariant r == DropCompleting(ts[..i])
      {
        assert ts[..i + 1] == ts[..i] + [ts[i]];
        DropCompletingAppend(ts[..i], [ts[i]]);
        if !ts[i].completing {
          r := r + [ts[i]];
        }
        i := i + 1;
      }
      assert ts[..i] == ts;
    } else {
      var i := 0;
      while i < |ts| && ts[i].kind != Normal
        invariant 0 <= i <= |ts|
        invariant forall j :: 0 <= j < i ==> ts[j].kind != Normal
      {
        i := i + 1;
      }
      if i < |ts| {
        WithoutFirstNormalAt(ts, i);
        r := [ts[i]] + (ts[..i] + ts[i + 1..]);
      } else {
        r := [SynthesisedFinish] + ts;
      }
    }
  }

  /**
   * The promotion example: with a finish, [alternate A, normal N,
   * alternate B] becomes [N, A, B].
   */
  lemma PromotionExample(a: Transition, n: Transition, b: Transition)
    requires a.kind == Alternate && n.kind == Normal && b.kind == Alternate
    ensures FlowTransitions([a, n, b], true) == [n, a, b]
  {
    assert FirstNormal([a, n, b]) == Some(1);
    WithoutFirstNormalAt([a, n, b], 1);
    assert [a, n, b][..1] + [a, n, b][2..] == [a, b];
  }

  // ---------------------------------------------------------------------------
  // Derived booleans and the default button
  // ---------------------------------------------------------------------------

  /** getFlowTransitionSize: the size of the offered list. */
  function TransitionCount(ts: seq<Transition>, hasFinish: bool): nat
  {
    |FlowTransitions(ts, hasFinish)|
  }

  /** getHasOneAlternateFlow. */
  predicate HasOneAlternateFlow(ts: seq<Transition>, hasFinish: bool)
  {
    hasFinish && TransitionCount(ts, hasFinish) == 1
  }

  /** getHasMultipleAlternateFlows. */
  predicate HasMultipleAlternateFlows(ts: seq<Transition>, hasFinish: bool)
  {
    hasFinish && TransitionCount(ts, hasFinish) > 1
  }

  /**
   * A finishable flow offers either one alternate or several, never both;
   * a flow that cannot finish offers neither.
   */
  lemma AlternatesExclusive(ts: seq<Transition>, hasFinish: bool)
    ensures hasFinish ==> (HasOneAlternateFlow(ts, hasFinish) != HasMultipleAlternateFlows(ts, hasFinish))
    ensures !hasFinish ==> !HasOneAlternateFlow(ts, hasFinish) && !HasMultipleAlternateFlows(ts, hasFinish)
  {
  }

  /**
   * There is exactly one alternate when the flow can finish and either no
   * transition is configured or the only one is normal.
   */
  lemma OneAlternateExactly(ts: seq<Transition>, hasFinish: bool)
    ensures HasOneAlternateFlow(ts, hasFinish) <==>
              hasFinish && (|ts| == 0 || (|ts| == 1 && ts[0].kind == Normal))
  {
    if hasFinish && |ts| == 1 && ts[0].kind == Normal {
      assert FirstNormal(ts) == Some(0);
    }
  }

  /** getDefaultButtonName. */
  function DefaultButtonName(hasNext: bool, ts: seq<Transition>, hasFinish: bool): string
  {
    if hasNext then "next"
    else if HasOneAlternateFlow(ts, hasFinish) then "OneAltFlow"
    else "MultipleAltFlow"
  }

  /** Whether the control with the given name is shown by the border. */
  predicate ControlShown(name: string, hasNext: bool, ts: seq<Transition>, hasFinish: bool)
  {
    || (name == "next" && hasNext)
    || (name == "OneAltFlow" && HasOneAlternateFlow(ts, hasFinish))
    || (name == "MultipleAltFlow" && HasMultipleAlternateFlows(ts, hasFinish))
  }

  /**
   * Whenever the flow can advance or finish, the default button names a
   * control the border shows.
   */
  lemma DefaultButtonShown(hasNext: bool, ts: seq<Transition>, hasFinish: bool)
    requires hasNext || hasFinish
    ensures ControlShown(DefaultButtonName(hasNext, ts, hasFinish), hasNext, ts, hasFinish)
  {
    AlternatesExclusive(ts, hasFinish);
  }

  /** Next wins over the alternates: the default is next exactly when there is a next step. */
  lemma DefaultButtonIsNext(hasNext: bool, ts: seq<Transition>, hasFinish: bool)
    ensures DefaultButtonName(hasNext, ts, hasFinish) == "next" <==> hasNext
  {
  }

  // ---------------------------------------------------------------------------
  // getComponentsToRefresh, getIncludeFlowControl, invokeIfNotNull
  // ---------------------------------------------------------------------------

  /**
   * getComponentsToRefresh: null when not asynchronous; otherwise the
   * components found for the update parameter followed by the additional
   * ones, when that list is neither null nor empty.
   */
  function ComponentsToRefresh(async: bool, found: seq<string>, additional: Option<seq<string>>): (r: Option<seq<string>>)
    ensures r.None? <==> !async
    ensures r.Some? ==> |found| <= |r.value| && r.value[..|found|] == found
    ensures r.Some? ==> r.value[|found|..] == (if additional.Some? then additional.value else [])
  {
    if !async then None
    else
      var extra := if additional.Some? && |additional.value| > 0 then additional.value else [];
      Some(found + extra)
  }

  /**
   * The refresh list of an asynchronous border holds exactly the found
   * components and then the additional ones, as many as the two together;
   * a null additional list and an empty one give the found components alone.
   */
  lemma RefreshListContents(found: seq<string>, additional: Option<seq<string>>)
    ensures ComponentsToRefresh(true, found, None) == ComponentsToRefresh(true, found, Some([])) == Some(found)
    ensures var r := ComponentsToRefresh(true, found, additional);
            && r.Some?
            && |r.value| == |found| + (if additional.Some? then |additional.value| else 0)
            && forall n :: n in r.value <==> n in found || (additional.Some? && n in additional.value)
  {
    var r := ComponentsToRefresh(true, found, additional);
    var extra := if additional.Some? then additional.value else [];
    assert r.value == r.value[..|found|] + r.value[|found|..] == found + extra;
    assert ComponentsToRefresh(true, found, None).value == found + [] == found;
    assert ComponentsToRefresh(true, found, Some([])).value == found + [] == found;
  }

  /** The activities not marked invisible, in order. */
  function VisibleActivities(acts: seq<Activity>): (r: seq<Activity>)
    ensures |r| <= |acts|
    ensures forall a :: a in r <==> a in acts && !a.invisible
  {
    if |acts| == 0 then []
    else if acts[0].invisible then VisibleActivities(acts[1..])
    else [acts[0]] + VisibleActivities(acts[1..])
  }

  /** Two distinct positions hold visible activities. */
  predicate TwoVisible(acts: seq<Activity>)
  {
    exists i, j :: 0 <= i < j < |acts| && !acts[i].invisible && !acts[j].invisible
  }

  /** There is more than one visible activity exactly when two positions hold visible activities. */
  lemma {:induction false} MoreThanOneVisible(acts: seq<Activity>)
    ensures |VisibleActivities(acts)| > 1 <==> TwoVisible(acts)
  {
    if |acts| > 0 {
      var tail := acts[1..];
      if acts[0].invisible {
        MoreThanOneVisible(tail);
        HiddenHead(acts);
      } else {
        AnyVisible(tail);
        VisibleHead(acts);
      }
    }
  }

  /** Behind an invisible first activity, two visible ones are two visible ones of the rest. */
  lemma HiddenHead(acts: seq<Activity>)
    requires |acts| > 0 && acts[0].invisible
    ensures TwoVisible(acts) <==> TwoVisible(acts[1..])
  {
    var tail := acts[1..];
    if TwoVisible(tail) {
      var i, j :| 0 <= i < j < |tail| && !tail[i].invisible && !tail[j].invisible;
      assert acts[i + 1] == tail[i] && acts[j + 1] == tail[j];
    }
    if TwoVisible(acts) {
      var i, j :| 0 <= i < j < |acts| && !acts[i].invisible && !acts[j].invisible;
      assert tail[i - 1] == acts[i] && tail[j - 1] == acts[j];
    }
  }

  /** Behind a visible first activity, a second visible one is any visible one of the rest. */
  lemma VisibleHead(acts: seq<Activity>)
    requires |acts| > 0 && !acts[0].invisible
    ensures TwoVisible(acts) <==> exists j :: 0 <= j < |acts[1..]| && !acts[1..][j].invisible
  {
    var tail := acts[1..];
    if exists j :: 0 <= j < |tail| && !tail[j].invisible {
      var j :| 0 <= j < |tail| && !tail[j].invisible;
      assert acts[j + 1] == tail[j];
      assert 0 < j + 1 < |acts| && !acts[0].invisible && !acts[j + 1].invisible;
    }
    if TwoVisible(acts) {
      var i, j :| 0 <= i < j < |acts| && !acts[i].invisible && !acts[j].invisible;
      assert tail[j - 1] == acts[j];
    }
  }

  /** Some visible activity exists exactly when the visible list is not empty. */
  lemma {:induction false} AnyVisible(acts: seq<Activity>)
    ensures |VisibleActivities(acts)| > 0 <==> exists j :: 0 <= j < |acts| && !acts[j].invisible
  {
    if |acts| > 0 {
      AnyVisible(acts[1..]);
      if exists j :: 0 <= j < |acts| && !acts[j].invisible {
        var j :| 0 <= j < |acts| && !acts[j].invisible;
        if j > 0 {
          assert acts[1..][j - 1] == acts[j];
        }
      }
      if exists j :: 0 <= j < |acts[1..]| && !acts[1..][j].invisible {
        var j :| 0 <= j < |acts[1..]| && !acts[1..][j].invisible;
        assert acts[j + 1] == acts[1..][j];
      }
    }
  }

  /**
   * getIncludeFlowControl: neither the border's nor the flow state's hide
   * flag is set and more than one activity is visible.
   */
  function IncludeFlowControl(fsHideFlowControl: bool, stateHidesFlowControl: bool, acts: seq<Activity>): (r: bool)
    ensures r <==> !fsHideFlowControl && !stateHidesFlowControl && TwoVisible(acts)
  {
    MoreThanOneVisible(acts);
    !(fsHideFlowControl || stateHidesFlowControl) && |VisibleActivities(acts)| > 1
  }

  /** invokeIfNotNull: the listeners that are set, in argument order. */
  function InvokedListeners<L(!new)>(listeners: seq<Option<L>>): (r: seq<L>)
    ensures |r| <= |listeners|
    ensures forall l :: l in r <==> Some(l) in listeners
  {
    if |listeners| == 0 then []
    else
      var rest := InvokedListeners(listeners[1..]);
      assert forall l :: Some(l) in listeners <==> listeners[0] == Some(l) || Some(l) in listeners[1..];
      if listeners[0].Some? then [listeners[0].value] + rest else rest
  }

  /** Listeners are invoked in argument order: two set listeners run first, then second. */
  lemma InvokedInOrder<L(!new)>(first: Option<L>, second: Option<L>)
    ensures first.Some? && second.Some? ==> InvokedListeners([first, second]) == [first.value, second.value]
    ensures first.None? ==> InvokedListeners([first, second]) == InvokedListeners([second])
    ensures second.None? ==> InvokedListeners([first, second]) == InvokedListeners([first])
  {
    assert [first, second][1..] == [second];
    assert [second][1..] == [];
    assert [first][1..] == [];
  }
}
