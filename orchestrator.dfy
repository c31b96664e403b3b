/** `bind` and `unbind`, and the `validate` hook that `bind` installs on a
    view's model: it validates the changed attributes, notifies the valid or
    invalid callback for each, writes the model's `isValid` flag and tells
    the caller whether any changed attribute was invalid. */
module Orchestrator {
  import opened Values
  import opened BuiltinRules
  import opened Resolver

  /** A notification callback: the library's defaults or one supplied in
      the options of `bind`. Callbacks act on the page only; the model
      records their invocations. */
  datatype Callback = DefaultValid | DefaultInvalid | Supplied(id: string)

  /** The `options` argument of `bind`; an absent entry is `None`. */
  datatype Options = Options(valid: Option<Callback>, invalid: Option<Callback>)

  /** The installed hook, with the callbacks it closes over. */
  datatype Hook = Hook(validFn: Callback, invalidFn: Callback)

  /** One callback invocation: `validFn(view, attr)` or
      `invalidFn(view, attr, error)`. */
  datatype Event = Valid(fn: Callback, attr: string) | Invalid(fn: Callback, attr: string, error: Value)

  /** What a call of `model.validate(attrs)` comes to: there is no hook,
      the hook returned, or it threw (a declared rule is not registered). */
  datatype Outcome = NotBound | Returned(invalid: bool) | Threw

  /** The changed attributes handed to the hook, in enumeration order. */
  type Attrs = seq<(string, Value)>

  predicate DistinctKeys(attrs: Attrs) {
    forall i, j :: 0 <= i < j < |attrs| ==> attrs[i].0 != attrs[j].0
  }

  /** `attrs[name]`. */
  function Lookup(attrs: Attrs, name: string): (v: Value)
    ensures (forall i :: 0 <= i < |attrs| ==> attrs[i].0 != name) ==> v == Undefined
  {
    if attrs == [] then Undefined
    else if attrs[0].0 == name then attrs[0].1
    else Lookup(attrs[1..], name)
  }

  /** `attrs[name]` is the value of the first key called `name`. */
  lemma {:induction false} LookupFirstMatch(attrs: Attrs, name: string, i: nat)
    requires i < |attrs| && attrs[i].0 == name
    requires forall j :: 0 <= j < i ==> attrs[j].0 != name
    ensures Lookup(attrs, name) == attrs[i].1
  {
    if i > 0 {
      LookupFirstMatch(attrs[1..], name, i - 1);
    }
  }

  /** A value other than undefined comes from an entry of `attrs`. */
  lemma {:induction false} LookupDefinedIsPresent(attrs: Attrs, name: string)
    ensures Lookup(attrs, name) != Undefined
            ==> exists i :: 0 <= i < |attrs| && attrs[i] == (name, Lookup(attrs, name))
  {
    if attrs != [] && attrs[0].0 != name {
      LookupDefinedIsPresent(attrs[1..], name);
      if Lookup(attrs, name) != Undefined {
        var i :| 0 <= i < |attrs[1..]| && attrs[1..][i] == (name, Lookup(attrs, name));
        assert attrs[i + 1] == attrs[1..][i];
      }
    }
  }

  /** `model.get(name)`. */
  function Get(attributes: map<string, Value>, name: string): Value {
    if name in attributes then attributes[name] else Undefined
  }

  // ---------------------------------------------------------------------
  // The hook as a function of its inputs

  /** The callback a validation result calls for. */
  function Notify(h: Hook, attr: string, result: Value): Event {
    if Truthy(result) then Invalid(h.invalidFn, attr, result) else Valid(h.validFn, attr)
  }

  /** How the loop over the changed attributes ended: it ran through, it
      met the key `isValid`, or validating an attribute threw. */
  datatype Stop = Completed | Guarded | Faulted

  /** The state of that loop: callbacks so far, the `invalid` flag, and
      whether it has stopped. */
  datatype Pass = Pass(events: seq<Event>, invalid: bool, stop: Stop)

  /** One turn of the loop over the changed attributes. */
  function Step(registry: map<string, RuleFn>, validation: Validation, h: Hook, p: Pass, kv: (string, Value)): Pass {
    if kv.0 == "isValid" then p.(stop := Guarded)
    else
      match Evaluate(registry, validation, kv.0, kv.1)
      case Fault => p.(stop := Faulted)
      case Done(res) => Pass(p.events + [Notify(h, kv.0, res)], p.invalid || Truthy(res), Completed)
  }

  /** The loop over the changed attributes. */
  function ChangedPass(registry: map<string, RuleFn>, validation: Validation, h: Hook, attrs: Attrs): (p: Pass)
    ensures |p.events| <= |attrs|
    ensures p.stop == Completed ==> |p.events| == |attrs|
  {
    if attrs == [] then Pass([], false, Completed)
    else
      var p := ChangedPass(registry, validation, h, attrs[..|attrs| - 1]);
      if p.stop != Completed then p else Step(registry, validation, h, p, attrs[|attrs| - 1])
  }

  /** The loop over the declared attributes, from position `from` on:
      `Some(false)` at the first one whose entry in `attrs` is undefined
      (absent, or present with the value undefined) and whose current value
      fails, `Some(true)` when there is none, `None` when validating one
      throws first. */
  function Recheck(registry: map<string, RuleFn>, validation: Validation, attrs: Attrs,
                   attributes: map<string, Value>, from: nat): Option<bool>
    requires from <= |validation|
    decreases |validation| - from
  {
    if from == |validation| then Some(true)
    else
      var name := validation[from].0;
      if Lookup(attrs, name) != Undefined then Recheck(registry, validation, attrs, attributes, from + 1)
      else
        match Evaluate(registry, validation, name, Get(attributes, name))
        case Fault => None
        case Done(res) => if Truthy(res) then Some(false) else Recheck(registry, validation, attrs, attributes, from + 1)
  }

  /** Everything one call of the hook does: the callbacks it fires, what
      it returns, and the value it writes to `isValid` (`None`: no write). */
  datatype Effect = Effect(events: seq<Event>, outcome: Outcome, flag: Option<bool>)

  function HookEffect(registry: map<string, RuleFn>, validation: Validation, h: Hook, attrs: Attrs,
                      attributes: map<string, Value>): (e: Effect)
    ensures e.outcome != NotBound && |e.events| <= |attrs|
    ensures e.outcome == Returned(true) ==> e.flag == Some(false)
    ensures e.outcome == Threw ==> e.flag.None?
    ensures e.flag == Some(true) ==> e.outcome == Returned(false)
  {
    var p := ChangedPass(registry, validation, h, attrs);
    match p.stop
    case Guarded => Effect(p.events, Returned(false), None)
    case Faulted => Effect(p.events, Threw, None)
    case Completed =>
      if p.invalid then Effect(p.events, Returned(true), Some(false))
      else
        match Recheck(registry, validation, attrs, attributes, 0)
        case None => Effect(p.events, Threw, None)
        case Some(b) => Effect(p.events, Returned(false), Some(b))
  }

  // ---------------------------------------------------------------------
  // The model object

  /** A Backbone model seen through its view: its declarations, its
      attributes, the `isValid` flag (`None` until first written), the
      installed hook (`None` when unbound) and the callbacks fired so far. */
  class Host {
    const validation: Validation
    var attributes: map<string, Value>
    var isValid: Option<bool>
    var validate: Option<Hook>
    ghost var log: seq<Event>

    constructor (validation: Validation, attributes: map<string, Value>)
      ensures this.validation == validation && this.attributes == attributes
      ensures isValid.None? && validate.None? && log == []
    {
      this.validation := validation;
      this.attributes := attributes;
      isValid := None;
      validate := None;
      log := [];
    }

    /** `bind(view, options)`: installs the hook with the supplied callbacks,
        the defaults where the options give none. */
    method Bind(options: Option<Options>)
      modifies this`validate
      ensures validate.Some?
      ensures validate.value.validFn
              == if options.Some? && options.value.valid.Some? then options.value.valid.value else DefaultValid
      ensures validate.value.invalidFn
              == if options.Some? && options.value.invalid.Some? then options.value.invalid.value else DefaultInvalid
    {
      var opts := if options.Some? then options.value else Options(None, None);
      var validFn := if opts.valid.Some? then opts.valid.value else DefaultValid;
      var invalidFn := if opts.invalid.Some? then opts.invalid.value else DefaultInvalid;
      validate := Some(Hook(validFn, invalidFn));
    }

    /** `unbind(view)`: removes the hook. */
    method Unbind()
      modifies this`validate
      ensures validate.None?
    {
      validate := None;
    }

    /** `model.validate(attrs)` with `registry` as `Backbone.Validation.validators`. */
    method Validate(registry: map<string, RuleFn>, attrs: Attrs) returns (r: Outcome)
      requires DistinctKeys(attrs)
      modifies this`isValid, this`log
      ensures validate.None? ==> r == NotBound && isValid == old(isValid) && log == old(log)
      ensures validate.Some? ==>
                var e := HookEffect(registry, validation, validate.value, attrs, attributes);
                && r == e.outcome
                && log == old(log) + e.events
                && isValid == (if e.flag.Some? then e.flag else old(isValid))
    {
      if validate.None? {
        return NotBound;
      }
      var h := validate.value;
      var invalid, stop := CheckChanged(registry, h, attrs);
      if stop == Guarded {
        return Returned(false);
      } else if stop == Faulted {
        return Threw;
      }
      if invalid {
        isValid := Some(false);
      } else {
        var valid := CheckUntouched(registry, attrs);
        if valid.None? {
          return Threw;
        }
        isValid := valid;
      }
      return Returned(invalid);
    }

    /** The hook's first loop: each changed attribute is validated and its
        callback fired, until the key `isValid` or a throw stops the loop. */
    method CheckChanged(registry: map<string, RuleFn>, h: Hook, attrs: Attrs) returns (invalid: bool, stop: Stop)
      modifies this`log
      ensures var p := ChangedPass(registry, validation, h, attrs);
              invalid == p.invalid && stop == p.stop && log == old(log) + p.events
    {
      invalid := false;
      ghost var events: seq<Event> := [];
      var i := 0;
      while i < |attrs|
        invariant 0 <= i <= |attrs|
        invariant ChangedPass(registry, validation, h, attrs[..i]) == Pass(events, invalid, Completed)
        invariant log == old(log) + events
      {
        var changedAttr := attrs[i].0;
        if changedAttr == "isValid" {
          ChangedHalts(registry, validation, h, attrs, i);
          return invalid, Guarded;
        }
        var result := ValidateAttr(registry, validation, changedAttr, attrs[i].1);
        if result.Fault? {
          ChangedHalts(registry, validation, h, attrs, i);
          return invalid, Faulted;
        }
        ChangedAdvances(registry, validation, h, attrs, i, events, invalid, result.result);
        var event := Notify(h, changedAttr, result.result);
        if Truthy(result.result) {
          invalid := true;
        }
        log := log + [event];
        events := events + [event];
        i := i + 1;
      }
      assert attrs[..i] == attrs;
      return invalid, Completed;
    }

    /** The hook's second loop: each declared attribute whose entry in
        `attrs` is undefined is validated on its current value until one
        fails. */
    method CheckUntouched(registry: map<string, RuleFn>, attrs: Attrs) returns (r: Option<bool>)
      ensures r == Recheck(registry, validation, attrs, attributes, 0)
    {
      var j := 0;
      while j < |validation|
        invariant 0 <= j <= |validation|
        invariant Recheck(registry, validation, attrs, attributes, 0) == Recheck(registry, validation, attrs, attributes, j)
      {
        var name := validation[j].0;
        if Lookup(attrs, name) == Undefined {
          var res := ValidateAttr(registry, validation, name, Get(attributes, name));
          if res.Fault? {
            return None;
          }
          if Truthy(res.result) {
            return Some(false);
          }
        }
        j := j + 1;
      }
      return Some(true);
    }
  }

  /** A turn of the loop over the changed attributes that fires a callback. */
  lemma ChangedAdvances(registry: map<string, RuleFn>, validation: Validation, h: Hook, attrs: Attrs,
                        i: nat, events: seq<Event>, invalid: bool, res: Value)
    requires i < |attrs| && ChangedPass(registry, validation, h, attrs[..i]) == Pass(events, invalid, Completed)
    requires attrs[i].0 != "isValid" && Evaluate(registry, validation, attrs[i].0, attrs[i].1) == Done(res)
    ensures ChangedPass(registry, validation, h, attrs[..i + 1])
            == Pass(events + [Notify(h, attrs[i].0, res)], invalid || Truthy(res), Completed)
  {
    assert attrs[..i + 1][..i] == attrs[..i];
  }

  /** A turn of the loop over the changed attributes that stops it: the
      key `isValid`, or a validation that throws. */
  lemma ChangedHalts(registry: map<string, RuleFn>, validation: Validation, h: Hook, attrs: Attrs, i: nat)
    requires i < |attrs| && ChangedPass(registry, validation, h, attrs[..i]).stop == Completed
    requires attrs[i].0 == "isValid" || Evaluate(registry, validation, attrs[i].0, attrs[i].1).Fault?
    ensures var p := ChangedPass(registry, validation, h, attrs[..i]);
            ChangedPass(registry, validation, h, attrs)
            == p.(stop := if attrs[i].0 == "isValid" then Guarded else Faulted)
  {
    assert attrs[..i + 1][..i] == attrs[..i];
    ChangedPassStopped(registry, validation, h, attrs, i + 1);
  }

  /** Once the loop over the changed attributes has stopped, the remaining
      attributes change nothing. */
  lemma {:induction false} ChangedPassStopped(registry: map<string, RuleFn>, validation: Validation, h: Hook,
                                              attrs: Attrs, k: nat)
    requires k <= |attrs| && ChangedPass(registry, validation, h, attrs[..k]).stop != Completed
    ensures ChangedPass(registry, validation, h, attrs) == ChangedPass(registry, validation, h, attrs[..k])
  {
    if k < |attrs| {
      var n := |attrs| - 1;
      assert attrs[..n][..k] == attrs[..k];
      ChangedPassStopped(registry, validation, h, attrs[..n], k);
    } else {
      assert attrs[..k] == attrs;
    }
  }

  // ---------------------------------------------------------------------
  // Properties of the hook

  /** A changed attribute the loop gets through: not `isValid`, and
      validating it does not throw. */
  ghost predicate Processable(registry: map<string, RuleFn>, validation: Validation, kv: (string, Value)) {
    kv.0 != "isValid" && Evaluate(registry, validation, kv.0, kv.1).Done?
  }

  /** The callbacks fired by the loop over the changed attributes: one per
      attribute, in order, up to the first key `isValid` or the first
      attribute whose validation throws; `invalidFn` with the error when the
      result is truthy, `validFn` otherwise. The loop runs through exactly
      when every changed attribute can be processed. */
  lemma {:induction false} ChangedCallbacks(registry: map<string, RuleFn>, validation: Validation, h: Hook, attrs: Attrs)
    ensures var p := ChangedPass(registry, validation, h, attrs);
            && |p.events| <= |attrs|
            && (forall j :: 0 <= j < |p.events| ==>
                  Processable(registry, validation, attrs[j])
                  && p.events[j] == Notify(h, attrs[j].0, Evaluate(registry, validation, attrs[j].0, attrs[j].1).result))
            && (p.stop == Completed <==> |p.events| == |attrs|)
            && (p.stop == Guarded ==> attrs[|p.events|].0 == "isValid")
            && (p.stop == Faulted ==> attrs[|p.events|].0 != "isValid"
                                      && Evaluate(registry, validation, attrs[|p.events|].0, attrs[|p.events|].1).Fault?)
  {
    if attrs != [] {
      var n := |attrs| - 1;
      ChangedCallbacks(registry, validation, h, attrs[..n]);
      var p := ChangedPass(registry, validation, h, attrs[..n]);
      var kv := attrs[n];
      assert forall j :: 0 <= j < n ==> attrs[..n][j] == attrs[j];
      if p.stop != Completed {
        assert ChangedPass(registry, validation, h, attrs) == p;
      } else if kv.0 == "isValid" {
        assert ChangedPass(registry, validation, h, attrs) == p.(stop := Guarded);
      } else {
        var r := Evaluate(registry, validation, kv.0, kv.1);
        if r.Fault? {
          assert ChangedPass(registry, validation, h, attrs) == p.(stop := Faulted);
        } else {
          var q := ChangedPass(registry, validation, h, attrs);
          assert q.events == p.events + [Notify(h, kv.0, r.result)];
          assert forall j :: 0 <= j < n ==> q.events[j] == p.events[j];
        }
      }
    }
  }

  /** The loop runs through exactly when every changed attribute can be
      processed. */
  lemma ChangedCompletesIff(registry: map<string, RuleFn>, validation: Validation, h: Hook, attrs: Attrs)
    ensures ChangedPass(registry, validation, h, attrs).stop == Completed
            <==> forall j :: 0 <= j < |attrs| ==> Processable(registry, validation, attrs[j])
  {
    ChangedCallbacks(registry, validation, h, attrs);
  }

  /** The `invalid` flag is set exactly when one of the callbacks fired was
      `invalidFn`, that is, when a processed attribute's result is truthy. */
  lemma {:induction false} ChangedInvalidIff(registry: map<string, RuleFn>, validation: Validation, h: Hook, attrs: Attrs)
    ensures var p := ChangedPass(registry, validation, h, attrs);
            p.invalid <==> exists j :: 0 <= j < |p.events| && p.events[j].Invalid?
  {
    if attrs != [] {
      var n := |attrs| - 1;
      ChangedInvalidIff(registry, validation, h, attrs[..n]);
      var p := ChangedPass(registry, validation, h, attrs[..n]);
      var q := ChangedPass(registry, validation, h, attrs);
      var kv := attrs[n];
      if p.stop == Completed && kv.0 != "isValid" && Evaluate(registry, validation, kv.0, kv.1).Done? {
        var e := Notify(h, kv.0, Evaluate(registry, validation, kv.0, kv.1).result);
        assert q.events == p.events + [e] && q.invalid == (p.invalid || e.Invalid?);
        assert q.events[|p.events|] == e;
        if p.invalid {
          var j :| 0 <= j < |p.events| && p.events[j].Invalid?;
          assert q.events[j] == p.events[j];
        }
        if exists j :: 0 <= j < |q.events| && q.events[j].Invalid? {
          var j :| 0 <= j < |q.events| && q.events[j].Invalid?;
          if j < |p.events| { assert p.events[j] == q.events[j]; }
        }
      }
    }
  }

  /** A changed attribute whose validation yields a truthy error. */
  ghost predicate ChangedFails(registry: map<string, RuleFn>, validation: Validation, kv: (string, Value)) {
    Evaluate(registry, validation, kv.0, kv.1).Done? && Truthy(Evaluate(registry, validation, kv.0, kv.1).result)
  }

  /** When the key `isValid` is among the changed attributes, and nothing
      before it throws, the hook fires the callbacks of the attributes
      before it only, returns `false` and leaves `isValid` unwritten. */
  lemma IsValidKeyGuard(registry: map<string, RuleFn>, validation: Validation, h: Hook, attrs: Attrs,
                        attributes: map<string, Value>, k: nat)
    requires k < |attrs| && attrs[k].0 == "isValid"
    requires forall j :: 0 <= j < k ==> Processable(registry, validation, attrs[j])
    ensures var e := HookEffect(registry, validation, h, attrs, attributes);
            e.outcome == Returned(false) && e.flag.None? && |e.events| == k
  {
    ChangedCallbacks(registry, validation, h, attrs);
  }

  /** Unless the key `isValid` stops it or a validation throws, the hook
      returns `true` exactly when some changed attribute's validation
      yields a truthy error. */
  lemma HookReturnsInvalid(registry: map<string, RuleFn>, validation: Validation, h: Hook, attrs: Attrs,
                           attributes: map<string, Value>)
    requires forall j :: 0 <= j < |attrs| ==> Processable(registry, validation, attrs[j])
    ensures var e := HookEffect(registry, validation, h, attrs, attributes);
            && (e.outcome == Returned(true) <==> exists j :: 0 <= j < |attrs| && ChangedFails(registry, validation, attrs[j]))
            && (e.outcome.Returned? || e.outcome == Threw)
  {
    ChangedCallbacks(registry, validation, h, attrs);
    ChangedInvalidIff(registry, validation, h, attrs);
    var p := ChangedPass(registry, validation, h, attrs);
    if exists j :: 0 <= j < |attrs| && ChangedFails(registry, validation, attrs[j]) {
      var j :| 0 <= j < |attrs| && ChangedFails(registry, validation, attrs[j]);
      assert p.events[j].Invalid?;
    }
  }

  /** A declared attribute whose entry in `attrs` is undefined: absent, or
      present with the value undefined (`_.isUndefined(attrs[attr])`). */
  ghost predicate Untouched(attrs: Attrs, name: string) {
    Lookup(attrs, name) == Undefined
  }

  /** A declared attribute whose current value passes, or fails,
      validation. */
  ghost predicate CurrentlyPasses(registry: map<string, RuleFn>, validation: Validation,
                                  attributes: map<string, Value>, name: string) {
    var r := Evaluate(registry, validation, name, Get(attributes, name));
    r.Done? && !Truthy(r.result)
  }

  ghost predicate CurrentlyFails(registry: map<string, RuleFn>, validation: Validation,
                                 attributes: map<string, Value>, name: string) {
    var r := Evaluate(registry, validation, name, Get(attributes, name));
    r.Done? && Truthy(r.result)
  }

  /** The scan over the declared attributes finds the record valid exactly
      when every declared attribute whose entry in `attrs` is undefined
      passes on its current value. */
  lemma {:induction false} RecheckValidIff(registry: map<string, RuleFn>, validation: Validation, attrs: Attrs,
                                           attributes: map<string, Value>, from: nat)
    requires from <= |validation|
    ensures Recheck(registry, validation, attrs, attributes, from) == Some(true)
            <==> forall i :: from <= i < |validation| && Untouched(attrs, validation[i].0)
                   ==> CurrentlyPasses(registry, validation, attributes, validation[i].0)
    decreases |validation| - from
  {
    if from < |validation| {
      RecheckValidIff(registry, validation, attrs, attributes, from + 1);
    }
  }

  /** The scan throws only where validating a declared attribute whose
      entry in `attrs` is undefined throws on its current value. */
  lemma {:induction false} RecheckThrowsOnlyOnFault(registry: map<string, RuleFn>, validation: Validation, attrs: Attrs,
                                                    attributes: map<string, Value>, from: nat)
    requires from <= |validation|
    ensures Recheck(registry, validation, attrs, attributes, from).None?
            ==> exists i :: from <= i < |validation| && Untouched(attrs, validation[i].0)
                            && Evaluate(registry, validation, validation[i].0, Get(attributes, validation[i].0)).Fault?
    decreases |validation| - from
  {
    if from < |validation| {
      RecheckThrowsOnlyOnFault(registry, validation, attrs, attributes, from + 1);
    }
  }

  /** The attributes that pass from `from` up to `to`. */
  ghost predicate PassesBetween(registry: map<string, RuleFn>, validation: Validation, attrs: Attrs,
                                attributes: map<string, Value>, from: nat, to: nat)
    requires from <= to <= |validation|
  {
    forall i :: from <= i < to && Untouched(attrs, validation[i].0)
      ==> CurrentlyPasses(registry, validation, attributes, validation[i].0)
  }

  /** The first failing untouched attribute at or after `from`, if every
      untouched attribute before it passes. */
  ghost predicate FirstFailure(registry: map<string, RuleFn>, validation: Validation, attrs: Attrs,
                               attributes: map<string, Value>, from: nat, i: nat)
    requires from <= |validation|
  {
    from <= i < |validation| && Untouched(attrs, validation[i].0)
    && CurrentlyFails(registry, validation, attributes, validation[i].0)
    && PassesBetween(registry, validation, attrs, attributes, from, i)
  }

  /** The scan finds the record invalid exactly when one declared attribute
      whose entry in `attrs` is undefined fails on its current value and
      every such one before it passes: the scan stops at the first failure, so nothing after it
      is validated. */
  lemma {:induction false} RecheckInvalidIff(registry: map<string, RuleFn>, validation: Validation, attrs: Attrs,
                                             attributes: map<string, Value>, from: nat)
    requires from <= |validation|
    ensures Recheck(registry, validation, attrs, attributes, from) == Some(false)
            <==> exists i :: FirstFailure(registry, validation, attrs, attributes, from, i)
    decreases |validation| - from
  {
    if from < |validation| {
      RecheckInvalidIff(registry, validation, attrs, attributes, from + 1);
      var name := validation[from].0;
      if Untouched(attrs, name) && CurrentlyFails(registry, validation, attributes, name) {
        assert FirstFailure(registry, validation, attrs, attributes, from, from);
      } else if Recheck(registry, validation, attrs, attributes, from) == Some(false) {
        var i :| FirstFailure(registry, validation, attrs, attributes, from + 1, i);
        assert FirstFailure(registry, validation, attrs, attributes, from, i);
      } else if exists i :: FirstFailure(registry, validation, attrs, attributes, from, i) {
        var i :| FirstFailure(registry, validation, attrs, attributes, from, i);
        assert i != from;
        assert FirstFailure(registry, validation, attrs, attributes, from + 1, i);
      }
    }
  }

  /** The value the hook writes to `isValid`: `false` when a changed
      attribute is invalid; otherwise `true` exactly when every declared
      attribute whose entry in `attrs` is undefined passes on its current
      value. */
  lemma FlagWritten(registry: map<string, RuleFn>, validation: Validation, h: Hook, attrs: Attrs,
                    attributes: map<string, Value>)
    requires forall j :: 0 <= j < |attrs| ==> Processable(registry, validation, attrs[j])
    ensures var e := HookEffect(registry, validation, h, attrs, attributes);
            && ((exists j :: 0 <= j < |attrs| && ChangedFails(registry, validation, attrs[j]))
                ==> e.flag == Some(false) && e.outcome == Returned(true))
            && ((forall j :: 0 <= j < |attrs| ==> !ChangedFails(registry, validation, attrs[j]))
                ==> (e.flag == Some(true)
                     <==> forall i :: 0 <= i < |validation| && Untouched(attrs, validation[i].0)
                            ==> CurrentlyPasses(registry, validation, attributes, validation[i].0)))
  {
    HookReturnsInvalid(registry, validation, h, attrs, attributes);
    ChangedInvalidIff(registry, validation, h, attrs);
    ChangedCallbacks(registry, validation, h, attrs);
    RecheckValidIff(registry, validation, attrs, attributes, 0);
  }

  /** The declarations `{name: {required: true}, age: {min: 18}}`. */
  function PersonValidation(): Validation {
    [("name", RuleMap([RuleKey("required", Bool(true), true)])),
     ("age", RuleMap([RuleKey("min", Num(18), true)]))]
  }

  /** A one-attribute update that is not `isValid` and does not throw
      fires the callback its result calls for. */
  lemma SingleChange(registry: map<string, RuleFn>, validation: Validation, h: Hook, kv: (string, Value), res: Value)
    requires kv.0 != "isValid" && Evaluate(registry, validation, kv.0, kv.1) == Done(res)
    ensures ChangedPass(registry, validation, h, [kv]) == Pass([Notify(h, kv.0, res)], Truthy(res), Completed)
  {
    assert [kv][..0] == [];
  }

  /** With the shipped rules, the update `{name: ""}` fires `invalidFn`
      for `name` with the default message, returns true and writes
      `false`. */
  lemma EmptyNameScenario(pattern: RuleFn, h: Hook, attributes: map<string, Value>)
    ensures HookEffect(DefaultRegistry(pattern), PersonValidation(), h, [("name", Str(""))], attributes)
            == Effect([Invalid(h.invalidFn, "name", Str("name is required"))], Returned(true), Some(false))
  {
    var err := Str("name is required");
    NameRejected(pattern, Str(""));
    SingleChange(DefaultRegistry(pattern), PersonValidation(), h, ("name", Str("")), err);
    assert Truthy(err) && Notify(h, "name", err) == Invalid(h.invalidFn, "name", err);
  }

  /** The aggregate flag: after `name` was left empty (unset, or stored
      empty), the update `{age: 21}` fires `validFn` for `age` and returns
      false, yet the flag is written `false`, because the stored `name`
      still fails `required`. */
  lemma AggregateFlagScenario(pattern: RuleFn, h: Hook, attributes: map<string, Value>)
    requires Get(attributes, "name") == Undefined || Get(attributes, "name") == Str("")
    ensures HookEffect(DefaultRegistry(pattern), PersonValidation(), h, [("age", Num(21))], attributes)
            == Effect([Valid(h.validFn, "age")], Returned(false), Some(false))
  {
    var changed: Attrs := [("age", Num(21))];
    AgeAccepted(pattern);
    SingleChange(DefaultRegistry(pattern), PersonValidation(), h, changed[0], Str(""));
    assert Lookup(changed, "name") == Undefined;
    StoredNameFails(pattern, changed, attributes);
  }

  /** The scan over the declarations stops at `name` when the update's
      entry for `name` is undefined and its stored value is unset or
      empty. */
  lemma StoredNameFails(pattern: RuleFn, changed: Attrs, attributes: map<string, Value>)
    requires Lookup(changed, "name") == Undefined
    requires Get(attributes, "name") == Undefined || Get(attributes, "name") == Str("")
    ensures Recheck(DefaultRegistry(pattern), PersonValidation(), changed, attributes, 0) == Some(false)
  {
    var v := PersonValidation();
    assert v[0].0 == "name";
    NameRejected(pattern, Get(attributes, "name"));
    assert Truthy(Str("name is required"));
  }

  lemma NameRejected(pattern: RuleFn, value: Value)
    requires value == Undefined || value == Str("")
    ensures Evaluate(DefaultRegistry(pattern), PersonValidation(), "name", value) == Done(Str("name is required"))
  {
    PersonDeclarations();
    RegistryHas(pattern);
    SingleRuleResult(DefaultRegistry(pattern), PersonValidation(), "name", "required", Bool(true), value);
    RequiredNameMissing(value);
  }

  lemma PersonDeclarations()
    ensures DeclarationOf(PersonValidation(), "name") == Some(RuleMap([RuleKey("required", Bool(true), true)]))
    ensures DeclarationOf(PersonValidation(), "age") == Some(RuleMap([RuleKey("min", Num(18), true)]))
  {
    assert PersonValidation()[1..][0].0 == "age";
  }

  lemma RegistryHas(pattern: RuleFn)
    ensures "required" in DefaultRegistry(pattern) && DefaultRegistry(pattern)["required"] == Required
    ensures "min" in DefaultRegistry(pattern) && DefaultRegistry(pattern)["min"] == Min
  {
  }

  lemma RequiredNameMissing(value: Value)
    requires value == Undefined || value == Str("")
    ensures Required(value, "name", Undefined, Bool(true)) == Str("name is required")
  {
    assert Message(Undefined, "name" + " is required") == Str("name is required");
  }

  lemma AgeAccepted(pattern: RuleFn)
    ensures Evaluate(DefaultRegistry(pattern), PersonValidation(), "age", Num(21)) == Done(Str(""))
  {
    PersonDeclarations();
    RegistryHas(pattern);
    SingleRuleResult(DefaultRegistry(pattern), PersonValidation(), "age", "min", Num(18), Num(21));
    NumberParsesBack(21);
  }
}
