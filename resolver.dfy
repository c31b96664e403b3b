/** Turning an attribute's declaration into the checks to run
    (`getValidators`) and running them on a candidate value
    (`validateAttr`). */
module Resolver {
  import opened Values
  import opened BuiltinRules

  /** One enumerable key of a rule-map declaration: the rule name, its
      parameter, and whether it is an own property of the declaration
      (a for-in loop also visits inherited enumerable keys). */
  datatype RuleKey = RuleKey(name: string, param: Value, own: bool)

  /** What the model's `validation` object holds for one attribute: a
      custom check function, or an object mapping rule names to their
      parameters, where the key `msg` carries a message shared by all. */
  datatype Declaration =
    | Custom(check: Value -> Value)
    | RuleMap(keys: seq<RuleKey>)

  /** The model's `validation` object: attribute names with their
      declarations, in enumeration order. */
  type Validation = seq<(string, Declaration)>

  /** One resolved check: `{fn, val, msg}`. `fn` is `None` when the rule
      name is not registered. */
  datatype Entry = Entry(fn: Option<RuleFn>, val: Value, msg: Value)

  /** What `getValidators` returns. */
  datatype Validators = CustomCheck(check: Value -> Value) | EntryList(entries: seq<Entry>)

  /** What `validateAttr` yields: its return value, or `Fault` when it calls
      an entry whose `fn` is missing (a TypeError in the source). */
  datatype Eval = Done(result: Value) | Fault

  /** `validation[attr]`: the declaration of the first key named `attr`. */
  function DeclarationOf(validation: Validation, attr: string): (d: Option<Declaration>)
    ensures d.None? <==> forall i :: 0 <= i < |validation| ==> validation[i].0 != attr
    ensures d.Some? ==> exists i :: 0 <= i < |validation| && validation[i] == (attr, d.value)
  {
    if validation == [] then None
    else if validation[0].0 == attr then Some(validation[0].1)
    else DeclarationOf(validation[1..], attr)
  }

  /** `declaration[name]` on a rule map: the parameter of the first key
      called `name`, `undefined` when there is none. */
  function Property(keys: seq<RuleKey>, name: string): (v: Value)
    ensures (forall i :: 0 <= i < |keys| ==> keys[i].name != name) ==> v == Undefined
    ensures v != Undefined ==> exists i :: 0 <= i < |keys| && keys[i].name == name && keys[i].param == v
  {
    if keys == [] then Undefined
    else if keys[0].name == name then keys[0].param
    else Property(keys[1..], name)
  }

  /** When some key is called `name`, `declaration[name]` is the parameter
      of the first such key. */
  lemma {:induction false} PropertyIsFirstMatch(keys: seq<RuleKey>, name: string, i: nat)
    requires i < |keys| && keys[i].name == name
    requires forall j :: 0 <= j < i ==> keys[j].name != name
    ensures Property(keys, name) == keys[i].param
  {
    if i > 0 {
      PropertyIsFirstMatch(keys[1..], name, i - 1);
    }
  }

  /** The keys that become checks: own keys other than `msg`. */
  predicate IsRuleKey(k: RuleKey) {
    k.name != "msg" && k.own
  }

  /** The check a rule key becomes. */
  function EntryFor(registry: map<string, RuleFn>, k: RuleKey, msg: Value): Entry {
    Entry(if k.name in registry then Some(registry[k.name]) else None, k.param, msg)
  }

  /** The checks a rule map becomes, key by key. */
  function RuleEntries(registry: map<string, RuleFn>, keys: seq<RuleKey>, msg: Value): (es: seq<Entry>)
    ensures |es| <= |keys|
    ensures forall j :: 0 <= j < |es| ==> es[j].msg == msg
  {
    if keys == [] then []
    else
      var last := keys[|keys| - 1];
      RuleEntries(registry, keys[..|keys| - 1], msg) + (if IsRuleKey(last) then [EntryFor(registry, last, msg)] else [])
  }

  /** What `getValidators` returns for `attr`. An attribute without a
      declaration gets an empty list. */
  function Resolve(registry: map<string, RuleFn>, validation: Validation, attr: string): (v: Validators)
    ensures v.CustomCheck? <==> DeclarationOf(validation, attr).Some? && DeclarationOf(validation, attr).value.Custom?
    ensures DeclarationOf(validation, attr).None? ==> v == EntryList([])
    ensures DeclarationOf(validation, attr).Some? && DeclarationOf(validation, attr).value.RuleMap?
            ==> |v.entries| <= |DeclarationOf(validation, attr).value.keys|
  {
    match DeclarationOf(validation, attr)
    case None => EntryList([])
    case Some(Custom(f)) => CustomCheck(f)
    case Some(RuleMap(keys)) => EntryList(RuleEntries(registry, keys, Property(keys, "msg")))
  }

  /** `getValidators(view, attr)`. */
  method GetValidators(registry: map<string, RuleFn>, validation: Validation, attr: string) returns (v: Validators)
    ensures v == Resolve(registry, validation, attr)
    ensures DeclarationOf(validation, attr).Some? && DeclarationOf(validation, attr).value.Custom?
            ==> v == CustomCheck(DeclarationOf(validation, attr).value.check)
  {
    var decl := DeclarationOf(validation, attr);
    if decl.Some? && decl.value.Custom? {
      return CustomCheck(decl.value.check);
    }
    var keys := if decl.Some? then decl.value.keys else [];
    var msg := Property(keys, "msg");
    var validations: seq<Entry> := [];
    var i := 0;
    while i < |keys|
      invariant 0 <= i <= |keys|
      invariant validations == RuleEntries(registry, keys[..i], msg)
    {
      var k := keys[i];
      if k.name != "msg" && k.own {
        var fn := if k.name in registry then Some(registry[k.name]) else None;
        validations := validations + [Entry(fn, k.param, msg)];
      }
      assert keys[..i + 1][..i] == keys[..i];
      i := i + 1;
    }
    assert keys[..|keys|] == keys;
    return EntryList(validations);
  }

  // ---------------------------------------------------------------------
  // Resolution keeps the keys, in order, and nothing else

  /** The checks of a prefix of the keys are a prefix of the checks. */
  lemma {:induction false} RuleEntriesPrefix(registry: map<string, RuleFn>, keys: seq<RuleKey>, msg: Value, i: nat)
    requires i <= |keys|
    ensures RuleEntries(registry, keys[..i], msg) <= RuleEntries(registry, keys, msg)
  {
    if i < |keys| {
      var n := |keys| - 1;
      assert keys[..n][..i] == keys[..i];
      RuleEntriesPrefix(registry, keys[..n], msg, i);
    } else {
      assert keys[..i] == keys;
    }
  }

  /** Every own key other than `msg` has its check, holding the key's
      parameter and the shared message; its position is the number of
      such keys before it. */
  lemma RuleKeyHasEntry(registry: map<string, RuleFn>, keys: seq<RuleKey>, msg: Value, i: nat)
    requires i < |keys| && IsRuleKey(keys[i])
    ensures var es := RuleEntries(registry, keys, msg);
            var j := |RuleEntries(registry, keys[..i], msg)|;
            j < |es| && es[j] == EntryFor(registry, keys[i], msg)
  {
    RuleEntriesPrefix(registry, keys, msg, i + 1);
    assert keys[..i + 1][..i] == keys[..i];
  }

  /** A key that is `msg` or inherited adds no check. */
  lemma NonRuleKeySkipped(registry: map<string, RuleFn>, keys: seq<RuleKey>, msg: Value, i: nat)
    requires i < |keys| && !IsRuleKey(keys[i])
    ensures RuleEntries(registry, keys[..i + 1], msg) == RuleEntries(registry, keys[..i], msg)
  {
    assert keys[..i + 1][..i] == keys[..i];
  }

  /** Checks come in the order of their keys. */
  lemma RuleEntriesInKeyOrder(registry: map<string, RuleFn>, keys: seq<RuleKey>, msg: Value, i: nat, i': nat)
    requires i < i' <= |keys| && IsRuleKey(keys[i])
    ensures |RuleEntries(registry, keys[..i], msg)| < |RuleEntries(registry, keys[..i'], msg)|
  {
    RuleEntriesPrefix(registry, keys[..i'], msg, i + 1);
    assert keys[..i'][..i + 1] == keys[..i + 1];
    assert keys[..i + 1][..i] == keys[..i];
  }

  /** Every check comes from an own key other than `msg`. */
  lemma {:induction false} EntryHasRuleKey(registry: map<string, RuleFn>, keys: seq<RuleKey>, msg: Value, j: nat)
    requires j < |RuleEntries(registry, keys, msg)|
    ensures exists i :: 0 <= i < |keys| && IsRuleKey(keys[i])
                        && |RuleEntries(registry, keys[..i], msg)| == j
                        && RuleEntries(registry, keys, msg)[j] == EntryFor(registry, keys[i], msg)
  {
    var n := |keys| - 1;
    var init := RuleEntries(registry, keys[..n], msg);
    if j < |init| {
      EntryHasRuleKey(registry, keys[..n], msg, j);
      var i :| 0 <= i < n && IsRuleKey(keys[..n][i])
               && |RuleEntries(registry, keys[..n][..i], msg)| == j
               && init[j] == EntryFor(registry, keys[..n][i], msg);
      assert keys[..n][..i] == keys[..i];
    }
  }

  // ---------------------------------------------------------------------
  // Running the checks

  /** What one check adds to the attribute's error text: the text of a
      truthy result, nothing otherwise. */
  function EntryError(e: Entry, attr: string, value: Value): string {
    if e.fn.None? then ""
    else
      var res := e.fn.value(value, attr, e.msg, e.val);
      if Truthy(res) then Show(res) else ""
  }

  /** The loop of `validateAttr`: the accumulated error text, or `None`
      once it reaches a check whose rule is missing. */
  function RunEntries(es: seq<Entry>, attr: string, value: Value): Option<string> {
    if es == [] then Some("")
    else
      match RunEntries(es[..|es| - 1], attr, value)
      case None => None
      case Some(acc) =>
        if es[|es| - 1].fn.None? then None else Some(acc + EntryError(es[|es| - 1], attr, value))
  }

  /** `validateAttr(view, attr, value)`. */
  function Evaluate(registry: map<string, RuleFn>, validation: Validation, attr: string, value: Value): Eval {
    match Resolve(registry, validation, attr)
    case CustomCheck(f) => Done(f(value))
    case EntryList(es) =>
      match RunEntries(es, attr, value)
      case None => Fault
      case Some(s) => Done(Str(s))
  }

  /** Only an attribute declared with a rule map can throw, and its result
      is always a string; an undeclared attribute gives "". */
  lemma EvaluateShape(registry: map<string, RuleFn>, validation: Validation, attr: string, value: Value)
    ensures var r := Evaluate(registry, validation, attr, value);
            var d := DeclarationOf(validation, attr);
            && (r.Fault? ==> d.Some? && d.value.RuleMap?)
            && (r.Done? && !(d.Some? && d.value.Custom?) ==> r.result.Str?)
            && (d.None? ==> r == Done(Str("")))
  {
  }

  /** `validateAttr(view, attr, value)`: a custom check's result as it is;
      otherwise the error texts of the checks, or a fault. */
  method ValidateAttr(registry: map<string, RuleFn>, validation: Validation, attr: string, value: Value)
    returns (r: Eval)
    ensures r == Evaluate(registry, validation, attr, value)
    ensures DeclarationOf(validation, attr).None? ==> r == Done(Str(""))
    ensures DeclarationOf(validation, attr).Some? && DeclarationOf(validation, attr).value.Custom?
            ==> r == Done(DeclarationOf(validation, attr).value.check(value))
  {
    var validators := GetValidators(registry, validation, attr);
    if validators.CustomCheck? {
      return Done(validators.check(value));
    }
    var result := RunChecks(validators.entries, attr, value);
    if result.None? {
      return Fault;
    }
    return Done(Str(result.value));
  }

  /** The loop of `validateAttr`: runs each check in turn and appends the
      text of every truthy result; `None` when a check has no rule. */
  method RunChecks(es: seq<Entry>, attr: string, value: Value) returns (r: Option<string>)
    ensures r == RunEntries(es, attr, value)
  {
    var result := "";
    var i := 0;
    while i < |es|
      invariant 0 <= i <= |es|
      invariant RunEntries(es[..i], attr, value) == Some(result)
    {
      var e := es[i];
      RunEntriesStep(es, attr, value, i, result);
      if e.fn.None? {
        RunEntriesFaultStays(es, attr, value, i + 1);
        return None;
      }
      var res := e.fn.value(value, attr, e.msg, e.val);
      if Truthy(res) {
        result := result + Show(res);
      } else {
        assert result + EntryError(e, attr, value) == result;
      }
      i := i + 1;
    }
    assert es[..|es|] == es;
    return Some(result);
  }

  /** One turn of the loop of `validateAttr`. */
  lemma RunEntriesStep(es: seq<Entry>, attr: string, value: Value, i: nat, acc: string)
    requires i < |es| && RunEntries(es[..i], attr, value) == Some(acc)
    ensures RunEntries(es[..i + 1], attr, value) == if es[i].fn.None? then None else Some(acc + EntryError(es[i], attr, value))
  {
    assert es[..i + 1][..i] == es[..i];
  }

  /** Once the checks fault, running more of them does not undo it. */
  lemma {:induction false} RunEntriesFaultStays(es: seq<Entry>, attr: string, value: Value, i: nat)
    requires i <= |es| && RunEntries(es[..i], attr, value).None?
    ensures RunEntries(es, attr, value).None?
  {
    if i < |es| {
      var n := |es| - 1;
      assert es[..n][..i] == es[..i];
      RunEntriesFaultStays(es[..n], attr, value, i);
    } else {
      assert es[..i] == es;
    }
  }

  // ---------------------------------------------------------------------
  // What running the checks yields

  /** The error texts joined in order. */
  function Concat(ss: seq<string>): string {
    if ss == [] then "" else ss[0] + Concat(ss[1..])
  }

  lemma {:induction false} ConcatSnoc(ss: seq<string>, s: string)
    ensures Concat(ss + [s]) == Concat(ss) + s
  {
    if ss != [] {
      assert (ss + [s])[1..] == ss[1..] + [s];
      ConcatSnoc(ss[1..], s);
    }
  }

  /** The error texts of the checks, one per check. */
  function Errors(es: seq<Entry>, attr: string, value: Value): (ss: seq<string>)
    ensures |ss| == |es| && forall j :: 0 <= j < |es| ==> ss[j] == EntryError(es[j], attr, value)
  {
    seq(|es|, j requires 0 <= j < |es| => EntryError(es[j], attr, value))
  }

  /** Running the checks faults exactly when one of them names a rule that
      is not registered. */
  lemma {:induction false} RunEntriesFaultIff(es: seq<Entry>, attr: string, value: Value)
    ensures RunEntries(es, attr, value).None? <==> exists j :: 0 <= j < |es| && es[j].fn.None?
  {
    if es != [] {
      var n := |es| - 1;
      RunEntriesFaultIff(es[..n], attr, value);
      if RunEntries(es[..n], attr, value).None? {
        var j :| 0 <= j < n && es[..n][j].fn.None?;
        assert es[j].fn.None?;
      }
      if exists j :: 0 <= j < n && es[j].fn.None? {
        var j :| 0 <= j < n && es[j].fn.None?;
        assert es[..n][j].fn.None?;
      }
    }
  }

  /** When the checks do not fault, the result is the concatenation, in
      order, of the texts of the checks that returned a truthy value. */
  lemma {:induction false} RunEntriesConcatenates(es: seq<Entry>, attr: string, value: Value)
    ensures RunEntries(es, attr, value).Some? ==> RunEntries(es, attr, value).value == Concat(Errors(es, attr, value))
  {
    if es != [] {
      var n := |es| - 1;
      RunEntriesConcatenates(es[..n], attr, value);
      assert Errors(es, attr, value) == Errors(es[..n], attr, value) + [EntryError(es[n], attr, value)];
      ConcatSnoc(Errors(es[..n], attr, value), EntryError(es[n], attr, value));
    }
  }

  lemma {:induction false} ConcatEmpty(ss: seq<string>)
    ensures Concat(ss) == "" <==> forall j :: 0 <= j < |ss| ==> ss[j] == ""
  {
    if ss != [] {
      ConcatEmpty(ss[1..]);
      assert forall j :: 1 <= j < |ss| ==> ss[j] == ss[1..][j - 1];
    }
  }

  /** When every rule is registered, the attribute passes (its error text is
      empty) exactly when no check returned a truthy value. */
  lemma RunEntriesPassIff(es: seq<Entry>, attr: string, value: Value)
    requires forall j :: 0 <= j < |es| ==> es[j].fn.Some?
    ensures RunEntries(es, attr, value) == Some("")
            <==> forall j :: 0 <= j < |es| ==> !Truthy(es[j].fn.value(value, attr, es[j].msg, es[j].val))
  {
    RunEntriesFaultIff(es, attr, value);
    RunEntriesConcatenates(es, attr, value);
    ConcatEmpty(Errors(es, attr, value));
  }

  /** Every check has its rule, and the rule returns a falsy value. */
  ghost predicate EntriesPass(es: seq<Entry>, attr: string, value: Value) {
    forall j :: 0 <= j < |es| ==> es[j].fn.Some? && !Truthy(es[j].fn.value(value, attr, es[j].msg, es[j].val))
  }

  /** Every own key other than `msg` names a registered rule, and that rule
      returns a falsy value. */
  ghost predicate KeysPass(registry: map<string, RuleFn>, keys: seq<RuleKey>, msg: Value, attr: string, value: Value) {
    forall i :: 0 <= i < |keys| && IsRuleKey(keys[i]) ==>
      keys[i].name in registry && !Truthy(registry[keys[i].name](value, attr, msg, keys[i].param))
  }

  /** The loop of `validateAttr` ends with "" exactly when every check
      has its rule and returns a falsy value. */
  lemma RunEntriesPassAll(es: seq<Entry>, attr: string, value: Value)
    ensures RunEntries(es, attr, value) == Some("") <==> EntriesPass(es, attr, value)
  {
    RunEntriesFaultIff(es, attr, value);
    if forall j :: 0 <= j < |es| ==> es[j].fn.Some? {
      RunEntriesPassIff(es, attr, value);
    }
  }

  lemma KeysPassEntriesPass(registry: map<string, RuleFn>, keys: seq<RuleKey>, msg: Value, attr: string, value: Value)
    requires KeysPass(registry, keys, msg, attr, value)
    ensures EntriesPass(RuleEntries(registry, keys, msg), attr, value)
  {
    var es := RuleEntries(registry, keys, msg);
    forall j | 0 <= j < |es|
      ensures es[j].fn.Some? && !Truthy(es[j].fn.value(value, attr, es[j].msg, es[j].val))
    {
      EntryHasRuleKey(registry, keys, msg, j);
    }
  }

  lemma EntriesPassKeysPass(registry: map<string, RuleFn>, keys: seq<RuleKey>, msg: Value, attr: string, value: Value)
    requires EntriesPass(RuleEntries(registry, keys, msg), attr, value)
    ensures KeysPass(registry, keys, msg, attr, value)
  {
    forall i | 0 <= i < |keys| && IsRuleKey(keys[i])
      ensures keys[i].name in registry
      ensures !Truthy(registry[keys[i].name](value, attr, msg, keys[i].param))
    {
      RuleKeyHasEntry(registry, keys, msg, i);
    }
  }

  /** An attribute declared by a rule map passes exactly when every own key
      other than `msg` names a registered rule and that rule, given the
      value, the attribute, the shared message and the key's parameter,
      returns a falsy value. */
  lemma RuleMapPassIff(registry: map<string, RuleFn>, validation: Validation, attr: string, value: Value,
                       keys: seq<RuleKey>)
    requires DeclarationOf(validation, attr) == Some(RuleMap(keys))
    ensures Evaluate(registry, validation, attr, value) == Done(Str(""))
            <==> forall i :: 0 <= i < |keys| && IsRuleKey(keys[i]) ==>
                   keys[i].name in registry
                   && !Truthy(registry[keys[i].name](value, attr, Property(keys, "msg"), keys[i].param))
  {
    var msg := Property(keys, "msg");
    var es := RuleEntries(registry, keys, msg);
    assert Evaluate(registry, validation, attr, value) == Done(Str("")) <==> RunEntries(es, attr, value) == Some("");
    RunEntriesPassAll(es, attr, value);
    if EntriesPass(es, attr, value) {
      EntriesPassKeysPass(registry, keys, msg, attr, value);
    }
    if KeysPass(registry, keys, msg, attr, value) {
      KeysPassEntriesPass(registry, keys, msg, attr, value);
    }
  }

  /** An attribute declared with a single registered rule and no `msg`
      yields the text of that rule's result when it is truthy, and ""
      otherwise. */
  lemma SingleRuleResult(registry: map<string, RuleFn>, validation: Validation, attr: string,
                         name: string, param: Value, value: Value)
    requires DeclarationOf(validation, attr) == Some(RuleMap([RuleKey(name, param, true)]))
    requires name != "msg" && name in registry
    ensures var res := registry[name](value, attr, Undefined, param);
            Evaluate(registry, validation, attr, value) == Done(Str(if Truthy(res) then Show(res) else ""))
  {
    var k := RuleKey(name, param, true);
    var e := SingleKeyEntry(registry, k);
    var es := RuleEntries(registry, [k], Property([k], "msg"));
    assert es == [e];
    assert Resolve(registry, validation, attr) == EntryList(es);
    SingleEntryRun(e, attr, value);
    assert RunEntries(es, attr, value) == Some(EntryError(e, attr, value));
    var res := registry[name](value, attr, Undefined, param);
    assert EntryError(e, attr, value) == if Truthy(res) then Show(res) else "";
  }

  lemma SingleKeyEntry(registry: map<string, RuleFn>, k: RuleKey) returns (e: Entry)
    requires IsRuleKey(k) && k.name in registry
    ensures Property([k], "msg") == Undefined
    ensures RuleEntries(registry, [k], Undefined) == [e] && e == Entry(Some(registry[k.name]), k.param, Undefined)
  {
    e := EntryFor(registry, k, Undefined);
    assert [k][..0] == [];
  }

  lemma SingleEntryRun(e: Entry, attr: string, value: Value)
    requires e.fn.Some?
    ensures RunEntries([e], attr, value) == Some(EntryError(e, attr, value))
  {
    assert [e][..0] == [];
    assert "" + EntryError(e, attr, value) == EntryError(e, attr, value);
  }
}
