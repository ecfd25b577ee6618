/**
 * FlowPropertyBinding: the `fprop:` binding that connects a component
 * parameter to a flow property. Its expression grammar is
 * `key[=default[@component]]`; reads fall back from the flow state to the
 * default expression, writes need an attached flow, and the first read
 * during rendering may attach the activity's validators to the field being
 * rendered.
 */
module PropertyBinding {
  import opened Common
  import opened FlowDefinitions

  /** The default clause: the component it is evaluated against (null when the `@` part is absent) and the expression. */
  datatype DefaultClause = DefaultClause(componentName: Option<string>, expression: string)

  /** A parsed binding expression: the flow property key and the optional default clause. */
  datatype Expression = Expression(key: string, default: Option<DefaultClause>)

  /** Where a default expression is evaluated: the flow component itself, or a named child of it. */
  datatype Scope = Root | Child(name: string)

  /** A Java object as a binding sees it: its class name and its toString(). */
  datatype Obj = Obj(className: string, text: string)

  /** The exceptions a binding throws. */
  datatype BindingError =
    | IllegalArgument(message: string)
    | IllegalState(message: string)
      /** a failed flow-state read; `validatorCause` when the cause was a ValidatorException */
    | ReadFailure(message: string, validatorCause: bool)
    | ConversionFailure(message: string)
      /** getComponent on a child id the flow component does not have */
    | NoSuchComponent(name: string)

  const NoExpressionMessage := "no expression to evaluate"
  const NoAttachedFlowMessage := "no attached flow - cannot set value"
  const NullConversionMessage := "Error converting a null"
  const Validators := "validators"

  /** An `=` that separates key and default: one that is not the last character. */
  predicate HasSeparator(s: string)
  {
    exists i :: 0 <= i < |s| - 1 && s[i] == '='
  }

  // ---------------------------------------------------------------------------
  // Parsing (the constructor)
  // ---------------------------------------------------------------------------

  /**
   * The constructor's parse of `expression`. A null expression is rejected.
   * Without a separating `=` the whole text is the key. Otherwise the key is
   * the text before the first `=`, and an `@` after it splits the rest into
   * component name and default expression.
   */
  function Parse(expression: Option<string>): (r: Result<Expression, BindingError>)
    ensures expression.None? <==> r.Err?
    ensures r.Err? ==> r.error == IllegalArgument(NoExpressionMessage)
    ensures r.Ok? ==> (r.value.default.Some? <==> HasSeparator(expression.value))
    ensures r.Ok? ==> Render(r.value) == expression.value && WellFormed(r.value)
  {
    if expression.None? then Err(IllegalArgument(NoExpressionMessage))
    else
      var s := expression.value;
      var eq := IndexOf(s, '=', 0);
      SeparatorAt(s);
      if eq >= 0 && eq < |s| - 1 then
        var at := IndexOf(s, '@', eq + 1);
        if at > eq then
          SplitWithComponent(s, eq, at);
          Ok(Expression(s[..eq], Some(DefaultClause(Some(s[eq + 1..at]), s[at + 1..]))))
        else
          SplitWithoutComponent(s, eq);
          Ok(Expression(s[..eq], Some(DefaultClause(None, s[eq + 1..]))))
      else
        Ok(Expression(s, None))
  }

  /** An `=` in last position does not separate: "foo=" is the key "foo=" with no default. */
  lemma TrailingEqualsIsKey()
    ensures Parse(Some("foo=")) == Ok(Expression("foo=", None))
  {
    assert !HasSeparator("foo=");
  }

  /** Only an `@` after the `=` names a component: "a@b=c" has key "a@b" and default "c" on the flow component. */
  lemma AtBeforeEqualsIsKey()
    ensures Parse(Some("a@b=c")) == Ok(Expression("a@b", Some(DefaultClause(None, "c"))))
  {
    assert IndexOf("a@b=c", '=', 0) == 3;
    assert IndexOf("a@b=c", '@', 4) == -1;
    assert "a@b=c"[..3] == "a@b" && "a@b=c"[4..] == "c";
  }

  /** A separating `=` exists exactly when the first `=` is not the last character. */
  lemma SeparatorAt(s: string)
    ensures HasSeparator(s) <==> 0 <= IndexOf(s, '=', 0) < |s| - 1
  {
    if HasSeparator(s) {
      var i :| 0 <= i < |s| - 1 && s[i] == '=';
      assert IndexOf(s, '=', 0) <= i;
    }
  }

  /** A stretch of `s` none of whose positions holds `c` does not contain `c`. */
  lemma NoneBetween(s: string, c: char, lo: nat, hi: nat)
    requires lo <= hi <= |s|
    requires forall i :: lo <= i < hi ==> s[i] != c
    ensures c !in s[lo..hi]
  {
    var m := s[lo..hi];
    forall j | 0 <= j < |m| ensures m[j] != c {
      assert m[j] == s[lo + j];
    }
  }

  /** The split of the constructor's component branch puts the text back together. */
  lemma SplitWithComponent(s: string, eq: nat, at: nat)
    requires eq == IndexOf(s, '=', 0) && eq < |s| - 1
    requires at == IndexOf(s, '@', eq + 1) && at > eq
    ensures s == s[..eq] + "=" + s[eq + 1..at] + "@" + s[at + 1..]
    ensures '=' !in s[..eq] && '@' !in s[eq + 1..at]
  {
    assert s == s[..eq] + [s[eq]] + s[eq + 1..at] + [s[at]] + s[at + 1..];
    NoneBetween(s, '=', 0, eq);
    NoneBetween(s, '@', eq + 1, at);
  }

  /** The split of the constructor's branch without a component puts the text back together. */
  lemma SplitWithoutComponent(s: string, eq: nat)
    requires eq == IndexOf(s, '=', 0) && eq < |s| - 1
    requires IndexOf(s, '@', eq + 1) == -1
    ensures s == s[..eq] + "=" + s[eq + 1..]
    ensures '=' !in s[..eq] && '@' !in s[eq + 1..] && s[eq + 1..] != ""
  {
    assert s == s[..eq] + [s[eq]] + s[eq + 1..];
    NoneBetween(s, '=', 0, eq);
    NoneBetween(s, '@', eq + 1, |s|);
  }

  /** The text an expression is written as; the inverse of Parse. */
  function Render(e: Expression): string
  {
    match e.default
    case None => e.key
    case Some(DefaultClause(None, x)) => e.key + "=" + x
    case Some(DefaultClause(Some(c), x)) => e.key + "=" + c + "@" + x
  }

  /**
   * The expressions Parse can produce: a key with no `=` before a default
   * clause, a component name with no `@`, and a non-empty `@`-free default
   * when there is no component part. A key without default has no
   * separating `=`.
   */
  predicate WellFormed(e: Expression)
  {
    match e.default
    case None => !HasSeparator(e.key)
    case Some(DefaultClause(None, x)) => '=' !in e.key && '@' !in x && x != ""
    case Some(DefaultClause(Some(c), x)) => '=' !in e.key && '@' !in c
  }

  /** Parsing the rendering of a well-formed expression gives that expression back. */
  lemma ParseRender(e: Expression)
    requires WellFormed(e)
    ensures Parse(Some(Render(e))) == Ok(e)
  {
    match e.default
    case None =>
      SeparatorAt(e.key);
    case Some(DefaultClause(None, x)) =>
      ParseRenderPlain(e.key, x);
    case Some(DefaultClause(Some(c), x)) =>
      ParseRenderScoped(e.key, c, x);
  }

  /** `key=default` with no `@` in the default parses back into its parts. */
  lemma ParseRenderPlain(key: string, x: string)
    requires '=' !in key && '@' !in x && x != ""
    ensures Parse(Some(key + "=" + x)) == Ok(Expression(key, Some(DefaultClause(None, x))))
  {
    var s := key + "=" + x;
    FirstIndex(s, '=', key, "=" + x);
    assert s[|key| + 1..] == x;
    assert s[..|key|] == key;
    NoIndex(s, '@', |key| + 1);
  }

  /** `key=component@default` parses back into its three parts. */
  lemma ParseRenderScoped(key: string, c: string, x: string)
    requires '=' !in key && '@' !in c
    ensures Parse(Some(key + "=" + c + "@" + x)) == Ok(Expression(key, Some(DefaultClause(Some(c), x))))
  {
    var s := key + "=" + c + "@" + x;
    var q := "=" + c + "@" + x;
    var eq := |key|;
    var at := |key| + 1 + |c|;
    assert s == key + q;
    assert |s| == at + 1 + |x|;
    FirstIndex(s, '=', key, q);
    assert s[eq + 1..at] == c;
    assert s[at] == '@';
    FirstIndexFrom(s, '@', eq + 1, c);
    ParseScoped(s, eq, at);
    assert s[..eq] == key;
    assert s[at + 1..] == x;
  }

  /** Parse at known separator positions: the `=` at `eq` and the `@` after it at `at`. */
  lemma ParseScoped(s: string, eq: nat, at: nat)
    requires eq == IndexOf(s, '=', 0) && eq < |s| - 1
    requires at == IndexOf(s, '@', eq + 1) && at > eq
    ensures Parse(Some(s)) == Ok(Expression(s[..eq], Some(DefaultClause(Some(s[eq + 1..at]), s[at + 1..]))))
  {
  }

  /** The first `c` in `p + q` is at |p| when `p` has none and `q` starts with one. */
  lemma FirstIndex(s: string, c: char, p: string, q: string)
    requires s == p + q && c !in p && |q| > 0 && q[0] == c
    ensures IndexOf(s, c, 0) == |p|
  {
    assert s[|p|] == c;
    forall i | 0 <= i < |p| ensures s[i] != c {
      assert s[i] == p[i];
    }
  }

  /** From `from`, the first `c` is right after the `c`-free stretch `m`. */
  lemma FirstIndexFrom(s: string, c: char, from: nat, m: string)
    requires from + |m| < |s| && s[from..from + |m|] == m && c !in m && s[from + |m|] == c
    ensures IndexOf(s, c, from) == from + |m|
  {
    forall i | from <= i < from + |m| ensures s[i] != c {
      assert s[i] == m[i - from];
    }
  }

  /** A text with no `c` from `from` onwards has no index for it. */
  lemma NoIndex(s: string, c: char, from: nat)
    requires from <= |s| && c !in s[from..]
    ensures IndexOf(s, c, from) == -1
  {
    forall i | from <= i < |s| ensures s[i] != c {
      assert s[i] == s[from..][i - from];
    }
  }

  /**
   * The scope the default is evaluated in: a non-blank component name
   * selects that child of the flow component, anything else the flow
   * component itself. Fixed when the binding is built.
   */
  function DefaultScope(d: DefaultClause): (r: Scope)
    ensures r.Child? <==> !IsBlank(d.componentName)
    ensures r.Child? ==> d.componentName == Some(r.name)
  {
    if IsBlank(d.componentName) then Root else Child(d.componentName.value)
  }

  /**
   * The constructor's lookup of that scope among the flow component's
   * children: the flow component needs no lookup, and a named child that
   * does not exist makes getComponent throw.
   */
  function ResolveScope(d: DefaultClause, children: set<string>): (r: Result<Scope, BindingError>)
    ensures r.Err? <==> !IsBlank(d.componentName) && d.componentName.value !in children
    ensures r.Err? ==> r.error == NoSuchComponent(d.componentName.value)
    ensures r.Ok? ==> r.value == DefaultScope(d)
    ensures r.Ok? && r.value.Child? ==> r.value.name in children
  {
    match DefaultScope(d)
    case Root => Ok(Root)
    case Child(name) => if name in children then Ok(Child(name)) else Err(NoSuchComponent(name))
  }

  // ---------------------------------------------------------------------------
  // Reading and writing
  // ---------------------------------------------------------------------------

  /** A value held in the flow state's property store. */
  datatype Stored = Null | Value(obj: Obj) | Unreadable(message: string, validatorCause: bool)

  /**
   * The attached FlowState as a binding sees it: the property store, the
   * current activity and the flow-level definitions behind it.
   */
  datatype FlowState = FlowState(properties: map<string, Stored>, activity: Activity, flowDefs: seq<PropertyDef>)

  /**
   * The component on top of the render stack: whether it is an
   * AbstractFormComponent and a ValidatableField, and its bindings, each
   * given by the expression it was created from. A null top of stack is a
   * target that is neither.
   */
  datatype RenderTarget = RenderTarget(isFormComponent: bool, isValidatable: bool, bindings: map<string, string>)

  /** What a read returns, with the render target as the read leaves it. */
  datatype ReadOutcome = ReadOutcome(value: Result<Option<Obj>, BindingError>, target: RenderTarget)

  /**
   * addValidation: a validatable form field without a `validators` binding
   * gets one built from the governing definition's validators, when that
   * definition exists and has them. Nothing else about the field changes.
   */
  function AddValidation(key: string, definition: Option<PropertyDef>, t: RenderTarget): (r: RenderTarget)
    ensures r.isFormComponent == t.isFormComponent && r.isValidatable == t.isValidatable
    ensures r.bindings.Keys == t.bindings.Keys + (if r != t then {Validators} else {})
    ensures forall n :: n in t.bindings ==> r.bindings[n] == t.bindings[n]
    ensures r != t <==>
              t.isFormComponent && t.isValidatable && Validators !in t.bindings &&
              definition.Some? && definition.value.validators.Some?
    ensures r != t ==> r.bindings[Validators] == definition.value.validators.value
  {
    if t.isFormComponent && t.isValidatable && Validators !in t.bindings &&
       definition.Some? && definition.value.validators.Some?
    then t.(bindings := t.bindings[Validators := definition.value.validators.value])
    else t
  }

  /** Attaching validators twice is attaching them once. */
  lemma AddValidationIdempotent(key: string, definition: Option<PropertyDef>, t: RenderTarget)
    ensures AddValidation(key, definition, AddValidation(key, definition, t)) == AddValidation(key, definition, t)
  {
  }

  /**
   * getFlowStateProperty. With an attached flow the validators are attached
   * first, then the stored value is read; a failing read becomes a binding
   * failure and no default is consulted. A null or missing value falls back
   * to `defaultValue`, the evaluation of the default clause, when there is a
   * default clause, and is null otherwise.
   */
  function Read(b: Expression, flow: Option<FlowState>, target: RenderTarget, defaultValue: Option<Obj>): (r: ReadOutcome)
    ensures flow.None? ==> r.target == target
    ensures flow.Some? ==>
              r.target == AddValidation(b.key, DefinitionOf(Governing(flow.value.activity, flow.value.flowDefs, b.key)), target)
    ensures r.value.Err? <==> flow.Some? && b.key in flow.value.properties && flow.value.properties[b.key].Unreadable?
    ensures r.value.Err? ==>
              r.value.error == ReadFailure(flow.value.properties[b.key].message, flow.value.properties[b.key].validatorCause)
    ensures flow.Some? && b.key in flow.value.properties && flow.value.properties[b.key].Value? ==>
              r.value == Ok(Some(flow.value.properties[b.key].obj))
    ensures r.value.Ok? && !(flow.Some? && b.key in flow.value.properties && flow.value.properties[b.key].Value?) ==>
              r.value == Ok(if b.default.Some? then defaultValue else None)
  {
    match flow
    case None =>
      ReadOutcome(Ok(if b.default.Some? then defaultValue else None), target)
    case Some(fs) =>
      var t := AddValidation(b.key, DefinitionOf(Governing(fs.activity, fs.flowDefs, b.key)), target);
      var stored := if b.key in fs.properties then fs.properties[b.key] else Null;
      match stored
      case Unreadable(m, v) => ReadOutcome(Err(ReadFailure(m, v)), t)
      case Value(o) => ReadOutcome(Ok(Some(o)), t)
      case Null => ReadOutcome(Ok(if b.default.Some? then defaultValue else None), t)
  }

  /** The outcome of ValueConverter.coerceValue: a converted value, or an exception. */
  datatype Coerced = Converted(value: Option<Obj>) | NotConvertible

  /** The message of a failed conversion of `raw` to `targetType`. */
  function ConversionMessage(raw: Option<Obj>, targetType: string): string
  {
    match raw
    case Some(o) => "Error converting a " + o.className + " to " + targetType + " toString() of value =" + o.text
    case None => NullConversionMessage
  }

  /** A failed conversion of a null never reads like one of a non-null value. */
  lemma ConversionMessagesDistinct(o: Obj, targetType: string)
    ensures ConversionMessage(Some(o), targetType) != ConversionMessage(None, targetType)
  {
    assert |ConversionMessage(Some(o), targetType)| > |NullConversionMessage|;
  }

  /**
   * getObject(Class): the read, coerced to `targetType`. Read failures pass
   * through; a failed coercion names the raw value's class, the target type
   * and the value, or says it was converting a null.
   */
  function GetObject(b: Expression, flow: Option<FlowState>, target: RenderTarget, defaultValue: Option<Obj>,
                     targetType: string, coerce: Option<Obj> -> Coerced): (r: ReadOutcome)
    ensures r.target == Read(b, flow, target, defaultValue).target
    ensures Read(b, flow, target, defaultValue).value.Err? ==> r.value == Read(b, flow, target, defaultValue).value
    ensures Read(b, flow, target, defaultValue).value.Ok? ==>
              var raw := Read(b, flow, target, defaultValue).value.value;
              match coerce(raw)
              case Converted(v) => r.value == Ok(v)
              case NotConvertible =>
                && r.value.Err? && r.value.error.ConversionFailure?
                && (raw.Some? ==> r.value.error.message == ConversionMessage(raw, targetType)
                                  && |r.value.error.message| > |NullConversionMessage|)
                && (raw.None? ==> r.value.error.message == NullConversionMessage)
  {
    var read := Read(b, flow, target, defaultValue);
    match read.value
    case Err(e) => read
    case Ok(raw) =>
      match coerce(raw)
      case Converted(v) => ReadOutcome(Ok(v), read.target)
      case NotConvertible => ReadOutcome(Err(ConversionFailure(ConversionMessage(raw, targetType))), read.target)
  }

  /**
   * setObject: without an attached flow the write fails with an
   * IllegalStateException; otherwise exactly the binding's key is written.
   */
  function Write(b: Expression, flow: Option<FlowState>, value: Option<Obj>): (r: Result<FlowState, BindingError>)
    ensures flow.None? <==> r.Err?
    ensures r.Err? ==> r.error == IllegalState(NoAttachedFlowMessage)
    ensures r.Ok? ==> r.value.activity == flow.value.activity && r.value.flowDefs == flow.value.flowDefs
    ensures r.Ok? ==> r.value.properties.Keys == flow.value.properties.Keys + {b.key}
    ensures r.Ok? ==> forall k :: k in flow.value.properties && k != b.key ==>
                        r.value.properties[k] == flow.value.properties[k]
  {
    match flow
    case None => Err(IllegalState(NoAttachedFlowMessage))
    case Some(fs) =>
      Ok(fs.(properties := fs.properties[b.key := if value.Some? then Value(value.value) else Null]))
  }

  /**
   * A non-null value written through a binding is what the binding reads
   * back, whatever its default; a null written falls back to the default.
   * Both calls address the same key, and the store here returns what was
   * set whatever type is expected on reading.
   */
  lemma ReadAfterWrite(b: Expression, fs: FlowState, value: Option<Obj>, target: RenderTarget, defaultValue: Option<Obj>)
    ensures Write(b, Some(fs), value).Ok?
    ensures Read(b, Some(Write(b, Some(fs), value).value), target, defaultValue).value ==
              Ok(if value.Some? then value else if b.default.Some? then defaultValue else None)
  {
  }

  /**
   * toString: the object identity, then `[expression=<key>`, then
   * ` defaultValue=<default>` when there is a default, then `]`.
   */
  function ToString(identity: string, b: Expression): (r: string)
    ensures |r| > |identity| + 12 + |b.key|
    ensures r[..|identity| + 12 + |b.key|] == identity + "[expression=" + b.key
    ensures r[|r| - 1] == ']'
    ensures b.default.None? <==> |r| == |identity| + 13 + |b.key|
    ensures b.default.Some? ==> r[|identity| + 12 + |b.key|..|r| - 1] == " defaultValue=" + b.default.value.expression
  {
    identity + "[expression=" + b.key + Tail(b)
  }

  /**
   * For keys without spaces the text identifies the binding: the same
   * identity and text mean the same key, the same presence of a default and
   * the same default expression.
   */
  lemma ToStringReadsBack(identity: string, b1: Expression, b2: Expression)
    requires ' ' !in b1.key && ' ' !in b2.key
    requires ToString(identity, b1) == ToString(identity, b2)
    ensures b1.key == b2.key
    ensures b1.default.Some? <==> b2.default.Some?
    ensures b1.default.Some? ==> b1.default.value.expression == b2.default.value.expression
  {
    var pre := identity + "[expression=";
    SplitUnique(pre, b1.key, Tail(b1), b2.key, Tail(b2));
    var t := Tail(b1);
    if b1.default.Some? {
      assert b1.default.value.expression == t[14..|t| - 1] == b2.default.value.expression;
    }
  }

  /** The key and the tail are recovered from `pre + key + tail`. */
  lemma SplitUnique(pre: string, k1: string, t1: string, k2: string, t2: string)
    requires ' ' !in k1 && (t1 == "]" || (|t1| > 0 && t1[0] == ' '))
    requires ' ' !in k2 && (t2 == "]" || (|t2| > 0 && t2[0] == ' '))
    requires pre + k1 + t1 == pre + k2 + t2
    ensures k1 == k2 && t1 == t2
  {
    var s := pre + k1 + t1;
    KeyEnd(pre, k1, t1);
    KeyEnd(pre, k2, t2);
    assert |k1| == |k2|;
  }

  /** What ToString writes after the key: a lone `]`, or the default and then `]`. */
  function Tail(b: Expression): (r: string)
    ensures b.default.None? ==> r == "]"
    ensures b.default.Some? ==> r == " defaultValue=" + b.default.value.expression + "]"
  {
    if b.default.None? then "]" else " defaultValue=" + b.default.value.expression + "]"
  }

  /**
   * In `pre + key + tail` with a space-free key, the first space from the
   * key on is where the tail starts when the tail starts with one, and there
   * is none when the tail is a lone `]`; either way the key is the stretch
   * it ends.
   */
  lemma KeyEnd(pre: string, key: string, tail: string)
    requires ' ' !in key && (tail == "]" || (|tail| > 0 && tail[0] == ' '))
    ensures (pre + key + tail)[|pre|..|pre| + |key|] == key
    ensures (pre + key + tail)[|pre| + |key|..] == tail
    ensures tail == "]" ==> IndexOf(pre + key + tail, ' ', |pre|) == -1
    ensures tail != "]" ==> IndexOf(pre + key + tail, ' ', |pre|) == |pre| + |key|
  {
    var s := pre + key + tail;
    assert s[|pre|..|pre| + |key|] == key;
    assert s[|pre| + |key|..] == tail;
    if tail == "]" {
      assert s[|pre|..] == key + tail;
      NoIndex(s, ' ', |pre|);
    } else {
      FirstIndexFrom(s, ' ', |pre|, key);
    }
  }
}
