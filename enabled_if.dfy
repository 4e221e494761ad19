/** The EnabledIf gating rule: whether a member is enabled, and whether it is
    hidden, given its EnabledIf attributes and the current values of the
    sibling properties they name.

    Reflection is abstracted away: a member is its name and its attribute
    list, and an instance is a map from property names to values. A name
    that is not a key of the map is a property the instance does not have. */
module EnabledIf {
  import opened Faults

  /** A constant that can stand in PropertyValues: the IComparable kinds a
      C# attribute argument can carry (Boolean, Int32, String, an enum). */
  datatype Scalar =
    | Bool(b: bool)
    | Int(i: int)
    | Str(s: string)
    | Enum(enumType: string, ordinal: int)

  /** The current value of a sibling property. */
  datatype Value =
    | Null
    | Comparable(scalar: Scalar)   // IComparable, not IEnabled
    | Enabler(isEnabled: bool)     // implements IEnabled (taken as not IComparable)
    | Other(typeName: string)      // neither IComparable nor IEnabled

  /** What `testValue.CompareTo(value)` does: returns 0, returns non-zero,
      or throws ArgumentException. */
  datatype Comparison = Equal | Unequal | Mismatch

  /** Two constants of the same runtime type (enums: the same enum type). */
  predicate SameKind(a: Scalar, b: Scalar) {
    match (a, b)
    case (Bool(_), Bool(_)) => true
    case (Int(_), Int(_)) => true
    case (Str(_), Str(_)) => true
    case (Enum(t, _), Enum(u, _)) => t == u
    case _ => false
  }

  /** CompareTo of the system types: null compares greater (non-zero), an
      argument of another runtime type throws ArgumentException. */
  function CompareTo(test: Scalar, value: Value): (c: Comparison)
    ensures c == Equal <==> value == Comparable(test)
    ensures c == Unequal <==> value == Null || (value.Comparable? && SameKind(test, value.scalar) && value.scalar != test)
  {
    match value
    case Null => Unequal
    case Comparable(s) => if !SameKind(test, s) then Mismatch else if test == s then Equal else Unequal
    case Enabler(_) => Mismatch
    case Other(_) => Mismatch
  }

  /** `value as IComparable`. */
  function AsComparable(value: Value): (r: Option<Scalar>)
    ensures r.Some? <==> value.Comparable?
    ensures r.Some? ==> r.value == value.scalar
  {
    if value.Comparable? then Some(value.scalar) else None
  }

  /** Outcome of `PropertyValues.Any(t => t.CompareTo(value) == 0)`. */
  datatype Match = Matched | NoMatch | Threw

  /** `Any` stops at the first match; a comparison that throws before any
      match ends the scan with the exception. */
  function AnyEqual(tests: seq<Scalar>, value: Value): (r: Match)
    ensures r == Matched ==> exists i :: 0 <= i < |tests| && value == Comparable(tests[i])
    ensures r == Threw ==> exists i :: 0 <= i < |tests| && CompareTo(tests[i], value) == Mismatch
    ensures value == Null ==> r == NoMatch
    decreases |tests|
  {
    if tests == [] then NoMatch
    else match CompareTo(tests[0], value)
      case Equal => Matched
      case Mismatch => Threw
      case Unequal =>
        var r := AnyEqual(tests[1..], value);
        assert forall i :: 1 <= i < |tests| ==> tests[i] == tests[1..][i - 1];
        r
  }

  /** The scan finds nothing exactly when every comparison is non-zero. */
  lemma {:induction false} NoMatchIff(tests: seq<Scalar>, value: Value)
    ensures AnyEqual(tests, value) == NoMatch <==>
            forall i :: 0 <= i < |tests| ==> CompareTo(tests[i], value) == Unequal
  {
    if tests != [] {
      NoMatchIff(tests[1..], value);
      if CompareTo(tests[0], value) == Unequal {
        forall i | 1 <= i < |tests|
          ensures CompareTo(tests[i], value) == CompareTo(tests[1..][i - 1], value)
        {
        }
      }
    }
  }

  /** The first comparison that is not "non-zero" decides the scan. */
  lemma {:induction false} FirstDecisive(tests: seq<Scalar>, value: Value, i: nat)
    requires i < |tests| && CompareTo(tests[i], value) != Unequal
    requires forall j :: 0 <= j < i ==> CompareTo(tests[j], value) == Unequal
    ensures AnyEqual(tests, value) == (if CompareTo(tests[i], value) == Equal then Matched else Threw)
  {
    if i > 0 {
      assert CompareTo(tests[0], value) == Unequal;
      forall j | 0 <= j < i - 1
        ensures CompareTo(tests[1..][j], value) == Unequal
      {
        assert tests[1..][j] == tests[j + 1];
      }
      FirstDecisive(tests[1..], value, i - 1);
    }
  }

  /** The scan succeeds exactly when some listed value compares equal and no
      comparison before it throws. */
  lemma MatchedIff(tests: seq<Scalar>, value: Value)
    ensures AnyEqual(tests, value) == Matched <==>
            exists i :: 0 <= i < |tests| && CompareTo(tests[i], value) == Equal &&
                        forall j :: 0 <= j < i ==> CompareTo(tests[j], value) == Unequal
  {
    var k := FirstNotUnequal(tests, value);
    if k < |tests| {
      FirstDecisive(tests, value, k);
    } else {
      NoMatchIff(tests, value);
    }
  }

  /** Index of the first comparison that is not "non-zero", or |tests|. */
  function FirstNotUnequal(tests: seq<Scalar>, value: Value): (k: nat)
    ensures k <= |tests|
    ensures forall j :: 0 <= j < k ==> CompareTo(tests[j], value) == Unequal
    ensures k < |tests| ==> CompareTo(tests[k], value) != Unequal
    decreases |tests|
  {
    if tests == [] then 0
    else if CompareTo(tests[0], value) != Unequal then 0
    else 1 + FirstNotUnequal(tests[1..], value)
  }

  /** When every listed value has the value's own type, the scan is plain
      membership. */
  lemma {:induction false} SameKindScan(tests: seq<Scalar>, s: Scalar)
    requires forall i :: 0 <= i < |tests| ==> SameKind(tests[i], s)
    ensures AnyEqual(tests, Comparable(s)) == (if s in tests then Matched else NoMatch)
  {
    if tests != [] {
      SameKindScan(tests[1..], s);
      assert tests == [tests[0]] + tests[1..];
    }
  }

  /** An EnabledIf attribute: the sibling it names, the values it accepts,
      and whether the member is hidden when this condition disables it. */
  datatype EnabledIfAttribute = EnabledIfAttribute(
    propertyName: string,
    propertyValues: seq<Scalar>,
    hideIfDisabled: bool)

  /** The attribute constructor; `propertyValues` None is a null array. The
      HideIfDisabled named argument is applied after construction. */
  function NewEnabledIf(propertyName: string, propertyValues: Option<seq<Scalar>>, hideIfDisabled: bool)
    : (at: EnabledIfAttribute)
    ensures at.propertyName == propertyName && at.hideIfDisabled == hideIfDisabled
    ensures |at.propertyValues| >= 1
    ensures at.propertyValues == [Bool(true)] <==>
            propertyValues.None? || propertyValues.value == [] || propertyValues.value == [Bool(true)]
    ensures propertyValues.Some? && propertyValues.value != [] ==> at.propertyValues == propertyValues.value
  {
    var values := if propertyValues.None? || |propertyValues.value| <= 0 then [Bool(true)] else propertyValues.value;
    EnabledIfAttribute(propertyName, values, hideIfDisabled)
  }

  /** A decorated member: its name and its EnabledIf attributes, in order. */
  datatype Member = Member(name: string, attributes: seq<EnabledIfAttribute>)

  /** An instance: the values of its properties, by name. */
  type Instance = map<string, Value>

  /** newEnabled after the try block of one loop iteration, for the value
      the named sibling has. */
  predicate ConditionHolds(at: EnabledIfAttribute, value: Value): (r: bool)
    ensures r && value.Comparable? ==> value.scalar in at.propertyValues
    ensures r && value.Enabler? ==> Bool(value.isEnabled) in at.propertyValues
    ensures value.Other? && |at.propertyValues| > 0 ==> !r
  {
    match value
    case Enabler(flag) => AnyEqual(at.propertyValues, Comparable(Bool(flag))) == Matched
    case _ =>
      var m := AnyEqual(at.propertyValues, value);
      m == Matched || (m == NoMatch && AsComparable(value).None?)
  }

  /** The single-attribute check: false when the sibling is missing, else the
      condition on its value. A null value never disables, a non-comparable
      one always does, and against constants of its own type a value passes
      exactly when it is listed. */
  function IsEnabledBy(at: EnabledIfAttribute, instance: Instance): (r: bool)
    ensures at.propertyName !in instance ==> !r
    ensures at.propertyName in instance ==> r == ConditionHolds(at, instance[at.propertyName])
    ensures at.propertyName in instance && instance[at.propertyName] == Null ==> r
    ensures at.propertyName in instance && instance[at.propertyName].Other? && |at.propertyValues| > 0 ==> !r
    ensures at.propertyName in instance && instance[at.propertyName].Comparable? &&
            (forall i :: 0 <= i < |at.propertyValues| ==> SameKind(at.propertyValues[i], instance[at.propertyName].scalar)) ==>
            (r <==> instance[at.propertyName].scalar in at.propertyValues)
  {
    if at.propertyName !in instance then false
    else
      var v := instance[at.propertyName];
      NullNeverDisables(at);
      if v.Other? && |at.propertyValues| > 0 then
        NonComparableDisables(at, v.typeName);
        ConditionHolds(at, v)
      else if v.Comparable? && forall i :: 0 <= i < |at.propertyValues| ==> SameKind(at.propertyValues[i], v.scalar) then
        ListedValueMatches(at, v.scalar);
        ConditionHolds(at, v)
      else
        ConditionHolds(at, v)
  }

  /** The try block of one iteration, as the loops run it. */
  method EvaluateCondition(at: EnabledIfAttribute, depValue: Value) returns (newEnabled: bool)
    ensures newEnabled == ConditionHolds(at, depValue)
  {
    newEnabled := true;
    var dependentValue := AsComparable(depValue);
    if depValue.Enabler? {
      var m := AnyEqual(at.propertyValues, Comparable(Bool(depValue.isEnabled)));
      if m != Matched {
        newEnabled := false;   // a non-match, or the ArgumentException caught
      }
    } else {
      var m := AnyEqual(at.propertyValues, depValue);
      if m == Threw {
        newEnabled := false;   // the ArgumentException caught
      } else if m == NoMatch && dependentValue.Some? {
        newEnabled := false;
      }
    }
  }

  /** A null sibling value never disables. */
  lemma {:induction false} NullNeverDisables(at: EnabledIfAttribute)
    ensures ConditionHolds(at, Null)
  {
    NoMatchIff(at.propertyValues, Null);
  }

  /** An IEnabled value is matched on its IsEnabled flag, as the boolean
      itself would be. */
  lemma EnablerIsMatchedOnFlag(at: EnabledIfAttribute, flag: bool)
    ensures ConditionHolds(at, Enabler(flag)) <==> ConditionHolds(at, Comparable(Bool(flag)))
    ensures ConditionHolds(at, Enabler(flag)) <==>
            (Bool(flag) in at.propertyValues &&
             forall j :: 0 <= j < IndexOf(at.propertyValues, Bool(flag)) ==> SameKind(at.propertyValues[j], Bool(true)))
  {
    var tests := at.propertyValues;
    var v := Comparable(Bool(flag));
    var k := FirstNotUnequal(tests, v);
    if k < |tests| {
      FirstDecisive(tests, v, k);
      if tests[k] == Bool(flag) {
        assert IndexOf(tests, Bool(flag)) == k;
      } else {
        assert !SameKind(tests[k], Bool(true));
        if Bool(flag) in tests {
          assert IndexOf(tests, Bool(flag)) > k;
        }
      }
    } else {
      NoMatchIff(tests, v);
      assert Bool(flag) !in tests;
    }
  }

  /** Index of the first occurrence of s in tests, or |tests|. */
  function IndexOf(tests: seq<Scalar>, s: Scalar): (k: nat)
    ensures k <= |tests|
    ensures k < |tests| <==> s in tests
    ensures k < |tests| ==> tests[k] == s
    ensures forall j :: 0 <= j < k ==> tests[j] != s
    decreases |tests|
  {
    if tests == [] then 0
    else if tests[0] == s then 0
    else 1 + IndexOf(tests[1..], s)
  }

  /** Any listed value matches: with constants of the value's own type the
      condition is membership. */
  lemma ListedValueMatches(at: EnabledIfAttribute, s: Scalar)
    requires forall i :: 0 <= i < |at.propertyValues| ==> SameKind(at.propertyValues[i], s)
    ensures ConditionHolds(at, Comparable(s)) <==> s in at.propertyValues
  {
    SameKindScan(at.propertyValues, s);
  }

  /** A comparison that throws before any match disables. */
  lemma MismatchDisables(at: EnabledIfAttribute, value: Value, i: nat)
    requires !value.Enabler?
    requires i < |at.propertyValues| && CompareTo(at.propertyValues[i], value) == Mismatch
    requires forall j :: 0 <= j < i ==> CompareTo(at.propertyValues[j], value) == Unequal
    ensures !ConditionHolds(at, value)
  {
    FirstDecisive(at.propertyValues, value, i);
  }

  /** A sibling value that is neither IComparable nor IEnabled makes the first
      CompareTo throw, which disables. */
  lemma NonComparableDisables(at: EnabledIfAttribute, typeName: string)
    requires |at.propertyValues| > 0
    ensures !ConditionHolds(at, Other(typeName))
  {
    MismatchDisables(at, Other(typeName), 0);
  }

  /** With no listed values the attribute wants `true`. */
  lemma DefaultWantsTrue(propertyName: string, hideFlag: bool, b: bool)
    ensures ConditionHolds(NewEnabledIf(propertyName, None, hideFlag), Comparable(Bool(b))) == b
    ensures ConditionHolds(NewEnabledIf(propertyName, None, hideFlag), Enabler(b)) == b
    ensures ConditionHolds(NewEnabledIf(propertyName, Some([]), hideFlag), Comparable(Bool(b))) == b
  {
    var at := NewEnabledIf(propertyName, None, hideFlag);
    assert at.propertyValues == [Bool(true)] && at.propertyValues[1..] == [];
    assert AnyEqual(at.propertyValues, Comparable(Bool(b))) == if b then Matched else NoMatch;
  }

  // Specification of the loops

  /** The first n attributes name properties the instance has. */
  predicate FoundUpTo(attrs: seq<EnabledIfAttribute>, instance: Instance, n: nat)
    requires n <= |attrs|
  {
    forall j :: 0 <= j < n ==> attrs[j].propertyName in instance
  }

  /** Index of the first attribute naming a missing property, or |attrs|. */
  function FirstMissing(attrs: seq<EnabledIfAttribute>, instance: Instance): (k: nat)
    ensures k <= |attrs| && FoundUpTo(attrs, instance, k)
    ensures k < |attrs| ==> attrs[k].propertyName !in instance
    decreases |attrs|
  {
    if attrs == [] then 0
    else if attrs[0].propertyName !in instance then 0
    else
      var k := 1 + FirstMissing(attrs[1..], instance);
      assert forall j :: 1 <= j < k ==> attrs[j] == attrs[1..][j - 1];
      k
  }

  /** Every one of the first n attributes holds. */
  predicate EnabledUpTo(attrs: seq<EnabledIfAttribute>, instance: Instance, n: nat)
    requires n <= |attrs|
  {
    forall j :: 0 <= j < n ==> IsEnabledBy(attrs[j], instance)
  }

  /** Some one of the first n attributes is reached by the loop, fails, and
      asks to hide. */
  predicate HiddenUpTo(attrs: seq<EnabledIfAttribute>, instance: Instance, n: nat)
    requires n <= |attrs|
  {
    exists j :: 0 <= j < n && FoundUpTo(attrs, instance, j + 1) &&
                attrs[j].hideIfDisabled && !IsEnabledBy(attrs[j], instance)
  }

  /** The dependent property the loop leaves behind: null after a missing
      one, else the last attribute's. */
  function LastDependent(attrs: seq<EnabledIfAttribute>, instance: Instance): Option<string>
  {
    if FirstMissing(attrs, instance) < |attrs| || attrs == [] then None
    else Some(attrs[|attrs| - 1].propertyName)
  }

  /** The dependent value the loop leaves behind: the initial boxed 0, or the
      last value it read, as IComparable. */
  function LastValue(attrs: seq<EnabledIfAttribute>, instance: Instance): Option<Scalar>
  {
    var k := FirstMissing(attrs, instance);
    if k == 0 then Some(Int(0)) else AsComparable(instance[attrs[k - 1].propertyName])
  }

  /** The result and out-parameters of the IsEnabled overloads. */
  datatype Evaluation = Evaluation(
    enabled: bool,
    dependentProp: Option<string>,
    dependentValue: Option<Scalar>,
    hidden: bool)

  /** Past a missing property no later attribute can hide the member. */
  lemma HiddenStopsAtMissing(attrs: seq<EnabledIfAttribute>, instance: Instance, i: nat)
    requires i < |attrs| && attrs[i].propertyName !in instance
    ensures HiddenUpTo(attrs, instance, |attrs|) == HiddenUpTo(attrs, instance, i)
  {
    if HiddenUpTo(attrs, instance, |attrs|) {
      var j :| 0 <= j < |attrs| && FoundUpTo(attrs, instance, j + 1) &&
               attrs[j].hideIfDisabled && !IsEnabledBy(attrs[j], instance);
      assert j < i;
    }
  }

  /** IsEnabled over IMemberInfo: the AND of every attribute's check; a
      missing sibling returns false at once; hidden when a failing attribute
      reached so far asks for it. */
  method IsEnabled(property: Option<Member>, instance: Option<Instance>) returns (r: Result<Evaluation>)
    ensures property.None? ==> r == Err(ArgumentNull("property"))
    ensures property.Some? && instance.None? ==> r == Err(ArgumentNull("instance"))
    ensures property.Some? && instance.Some? ==>
      var attrs, inst := property.value.attributes, instance.value;
      r.Ok? &&
      r.value.enabled == EnabledUpTo(attrs, inst, |attrs|) &&
      r.value.hidden == HiddenUpTo(attrs, inst, |attrs|) &&
      r.value.dependentProp == LastDependent(attrs, inst) &&
      r.value.dependentValue == LastValue(attrs, inst)
    ensures property.Some? && instance.Some? &&
            FirstMissing(property.value.attributes, instance.value) < |property.value.attributes| ==>
            r.Ok? && !r.value.enabled && r.value.dependentProp == None
    ensures property.Some? && instance.Some? && property.value.attributes == [] ==>
            r.Ok? && r.value.enabled && !r.value.hidden
    ensures r.Ok? && r.value.hidden ==> !r.value.enabled
  {
    if property.None? {
      return Err(ArgumentNull("property"));
    }
    if instance.None? {
      return Err(ArgumentNull("instance"));
    }
    var attrs, inst := property.value.attributes, instance.value;
    var dependentProp: Option<string> := None;
    var dependentValue: Option<Scalar> := Some(Int(0));
    var hidden := false;
    var enabled := true;
    var i := 0;
    while i < |attrs|
      invariant 0 <= i <= |attrs|
      invariant FoundUpTo(attrs, inst, i)
      invariant enabled == EnabledUpTo(attrs, inst, i)
      invariant hidden == HiddenUpTo(attrs, inst, i)
      invariant hidden ==> !enabled
      invariant dependentProp == if i == 0 then None else Some(attrs[i - 1].propertyName)
      invariant dependentValue == if i == 0 then Some(Int(0)) else AsComparable(inst[attrs[i - 1].propertyName])
    {
      var at := attrs[i];
      if at.propertyName !in inst {
        assert FirstMissing(attrs, inst) == i;
        assert !IsEnabledBy(attrs[i], inst);
        HiddenStopsAtMissing(attrs, inst, i);
        return Ok(Evaluation(false, None, dependentValue, hidden));
      }
      dependentProp := Some(at.propertyName);
      var depValue := inst[at.propertyName];
      dependentValue := AsComparable(depValue);
      var newEnabled := EvaluateCondition(at, depValue);
      assert newEnabled == IsEnabledBy(attrs[i], inst);
      if !newEnabled && at.hideIfDisabled {
        hidden := true;
      }
      enabled := enabled && newEnabled;
      i := i + 1;
    }
    r := Ok(Evaluation(enabled, dependentProp, dependentValue, hidden));
  }

  /** IsEnabled over reflection's MemberInfo, as written: after a missing
      sibling it dereferences the null PropertyInfo, so it throws
      NullReferenceException instead of returning false. The overloads that
      delegate to it are modelled over IsEnabled, which returns false there. */
  method IsEnabledReflection(property: Option<Member>, instance: Option<Instance>) returns (r: Result<Evaluation>)
    ensures property.None? ==> r == Err(ArgumentNull("property"))
    ensures property.Some? && instance.None? ==> r == Err(ArgumentNull("instance"))
    ensures property.Some? && instance.Some? ==>
      var attrs, inst := property.value.attributes, instance.value;
      (r == Err(NullReference) <==> FirstMissing(attrs, inst) < |attrs|) &&
      (FirstMissing(attrs, inst) == |attrs| ==>
        r.Ok? &&
        r.value.enabled == EnabledUpTo(attrs, inst, |attrs|) &&
        r.value.hidden == HiddenUpTo(attrs, inst, |attrs|) &&
        r.value.dependentProp == LastDependent(attrs, inst) &&
        r.value.dependentValue == LastValue(attrs, inst))
    ensures r.Ok? && r.value.hidden ==> !r.value.enabled
  {
    if property.None? {
      return Err(ArgumentNull("property"));
    }
    if instance.None? {
      return Err(ArgumentNull("instance"));
    }
    var attrs, inst := property.value.attributes, instance.value;
    var dependentProp: Option<string> := None;
    var dependentValue: Option<Scalar> := Some(Int(0));
    var hidden := false;
    var enabled := true;
    var i := 0;
    while i < |attrs|
      invariant 0 <= i <= |attrs|
      invariant FoundUpTo(attrs, inst, i)
      invariant enabled == EnabledUpTo(attrs, inst, i)
      invariant hidden == HiddenUpTo(attrs, inst, i)
      invariant hidden ==> !enabled
      invariant dependentProp == if i == 0 then None else Some(attrs[i - 1].propertyName)
      invariant dependentValue == if i == 0 then Some(Int(0)) else AsComparable(inst[attrs[i - 1].propertyName])
    {
      var at := attrs[i];
      if at.propertyName !in inst {
        // enabled is set to false, then GetValue is called on the null property
        assert FirstMissing(attrs, inst) == i;
        return Err(NullReference);
      }
      dependentProp := Some(at.propertyName);
      var depValue := inst[at.propertyName];
      dependentValue := AsComparable(depValue);
      var newEnabled := EvaluateCondition(at, depValue);
      assert newEnabled == IsEnabledBy(attrs[i], inst);
      if !newEnabled && at.hideIfDisabled {
        hidden := true;
      }
      enabled := enabled && newEnabled;
      i := i + 1;
    }
    r := Ok(Evaluation(enabled, dependentProp, dependentValue, hidden));
  }

  /** The overload with outs dependentProp and dependentValue only; it
      delegates to the corrected check (see IsEnabledReflection). */
  method IsEnabledWithDependent(property: Option<Member>, instance: Option<Instance>)
    returns (r: Result<(bool, Option<string>, Option<Scalar>)>)
    ensures property.None? ==> r == Err(ArgumentNull("property"))
    ensures property.Some? && instance.None? ==> r == Err(ArgumentNull("instance"))
    ensures property.Some? && instance.Some? ==>
      var attrs, inst := property.value.attributes, instance.value;
      r == Ok((EnabledUpTo(attrs, inst, |attrs|), LastDependent(attrs, inst), LastValue(attrs, inst)))
  {
    var e := IsEnabled(property, instance);
    match e
    case Err(f) => r := Err(f);
    case Ok(v) => r := Ok((v.enabled, v.dependentProp, v.dependentValue));
  }

  /** The overload returning only whether the member is enabled. */
  method IsEnabledSimple(property: Option<Member>, instance: Option<Instance>) returns (r: Result<bool>)
    ensures property.None? ==> r == Err(ArgumentNull("property"))
    ensures property.Some? && instance.None? ==> r == Err(ArgumentNull("instance"))
    ensures property.Some? && instance.Some? ==>
      var attrs, inst := property.value.attributes, instance.value;
      r == Ok(forall i :: 0 <= i < |attrs| ==> IsEnabledBy(attrs[i], inst))
  {
    var e := IsEnabled(property, instance);
    match e
    case Err(f) => r := Err(f);
    case Ok(v) => r := Ok(v.enabled);
  }

  /** The overload with the `hidden` out-parameter. */
  method IsEnabledHidden(property: Option<Member>, instance: Option<Instance>) returns (r: Result<(bool, bool)>)
    ensures property.None? ==> r == Err(ArgumentNull("property"))
    ensures property.Some? && instance.None? ==> r == Err(ArgumentNull("instance"))
    ensures property.Some? && instance.Some? ==>
      var attrs, inst := property.value.attributes, instance.value;
      r == Ok((EnabledUpTo(attrs, inst, |attrs|), HiddenUpTo(attrs, inst, |attrs|)))
    ensures r.Ok? && r.value.1 ==> !r.value.0
  {
    var e := IsEnabled(property, instance);
    match e
    case Err(f) => r := Err(f);
    case Ok(v) => r := Ok((v.enabled, v.hidden));
  }

  /** The names of the properties the member depends on, one per attribute,
      in attribute order. */
  method DependsOn(property: Option<Member>) returns (r: Result<seq<string>>)
    ensures property.None? <==> r == Err(ArgumentNull("property"))
    ensures property.Some? ==>
      var attrs := property.value.attributes;
      r.Ok? && |r.value| == |attrs| &&
      forall i :: 0 <= i < |attrs| ==> r.value[i] == attrs[i].propertyName
  {
    if property.None? {
      return Err(ArgumentNull("property"));
    }
    var attrs := property.value.attributes;
    var list: seq<string> := [];
    var i := 0;
    while i < |attrs|
      invariant 0 <= i <= |attrs|
      invariant |list| == i
      invariant forall j :: 0 <= j < i ==> list[j] == attrs[j].propertyName
    {
      list := list + [attrs[i].propertyName];
      i := i + 1;
    }
    r := Ok(list);
  }

  /** Visible when enabled; otherwise visible unless this attribute hides
      disabled members. Argument exceptions of the enabled test propagate. */
  method IsVisible(at: EnabledIfAttribute, property: Option<Member>, instance: Option<Instance>)
    returns (r: Result<bool>)
    ensures property.None? ==> r == Err(ArgumentNull("property"))
    ensures property.Some? && instance.None? ==> r == Err(ArgumentNull("instance"))
    ensures property.Some? && instance.Some? ==>
      var attrs, inst := property.value.attributes, instance.value;
      r == Ok(EnabledUpTo(attrs, inst, |attrs|) || !at.hideIfDisabled)
  {
    var e := IsEnabledSimple(property, instance);
    match e
    case Err(f) => r := Err(f);
    case Ok(enabled) =>
      if enabled {
        r := Ok(true);
      } else {
        r := Ok(false == at.hideIfDisabled);
      }
  }

  /** One attribute naming a property the instance lacks: the reflection
      overload throws where the IMemberInfo overload returns false. */
  method MissingPropertyExample() returns (reflection: Result<Evaluation>, memberInfo: Result<Evaluation>)
    ensures reflection == Err(NullReference)
    ensures memberInfo == Ok(Evaluation(false, None, Some(Int(0)), false))
  {
    var at := NewEnabledIf("Missing", None, true);
    var member := Member("Gated", [at]);
    var instance: Instance := map["Present" := Comparable(Bool(true))];
    assert FirstMissing([at], instance) == 0;
    reflection := IsEnabledReflection(Some(member), Some(instance));
    memberInfo := IsEnabled(Some(member), Some(instance));
    assert !HiddenUpTo([at], instance, 0);
  }
}
