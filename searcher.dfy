/** The test searcher/provider: a hard-coded, observable list of test
    descriptors, a snapshot that Search copies from it, a source the
    descriptors report, and a cache-invalidation event that is hooked to the
    list's change notification only while someone subscribes.

    The source keeps the list, the enable switch and the type source in
    static state and the snapshot and the event in the instance; the model
    holds both in one object, as there is one searcher. */
module Searcher {
  import opened Faults
  import opened Descriptors

  /** A type source: its name, location, version and the types it lists. */
  datatype TypeSource = TypeSource(name: string, location: string, version: string, types: seq<TypeDesc>)

  /** FirstOrDefault by name. */
  function FirstNamed(types: seq<TypeDesc>, identifier: string): (r: Option<TypeDesc>)
    ensures r.None? <==> forall i :: 0 <= i < |types| ==> Name(types[i]) != identifier
    ensures r.Some? ==> exists i :: 0 <= i < |types| && types[i] == r.value && Name(r.value) == identifier &&
                                    forall j :: 0 <= j < i ==> Name(types[j]) != identifier
    decreases |types|
  {
    if types == [] then None
    else if Name(types[0]) == identifier then Some(types[0])
    else
      var r := FirstNamed(types[1..], identifier);
      assert forall i :: 1 <= i < |types| ==> types[i] == types[1..][i - 1];
      r
  }

  /** The position of the last occurrence of `h`, or |handlers| when absent. */
  function LastIndex(handlers: seq<nat>, h: nat): (k: nat)
    ensures k <= |handlers|
    ensures k == |handlers| <==> h !in handlers
    ensures k < |handlers| ==> handlers[k] == h && h !in handlers[k + 1..]
    decreases |handlers|
  {
    if handlers == [] then 0
    else if handlers[|handlers| - 1] == h then |handlers| - 1
    else
      var front := handlers[..|handlers| - 1];
      assert handlers == front + [handlers[|handlers| - 1]];
      var k := LastIndex(front, h);
      if k == |front| then |handlers|
      else
        assert handlers[k + 1..] == front[k + 1..] + [handlers[|handlers| - 1]];
        k
  }

  /** Removing a handler from a multicast delegate: its last occurrence goes
      and the others keep their order, or nothing changes when it is not
      there. */
  function RemoveLast(handlers: seq<nat>, h: nat): (r: seq<nat>)
    ensures h !in handlers ==> r == handlers
    ensures h in handlers ==>
              var k := LastIndex(handlers, h);
              r == handlers[..k] + handlers[k + 1..]
    ensures h in handlers ==> |r| == |handlers| - 1 && multiset(r) == multiset(handlers) - multiset{h}
  {
    var k := LastIndex(handlers, h);
    if k == |handlers| then handlers
    else
      assert handlers == handlers[..k] + [h] + handlers[k + 1..];
      handlers[..k] + handlers[k + 1..]
  }

  /** Adding a handler and then removing it restores the subscriber list. */
  lemma RemoveUndoesAdd(handlers: seq<nat>, h: nat)
    ensures RemoveLast(handlers + [h], h) == handlers
  {
    assert (handlers + [h])[..|handlers|] == handlers;
  }

  class TestSearcher {
    /** The observable list of test descriptors. */
    var hardcoded: seq<TypeDesc>
    /** The list as the last Search copied it. */
    var snapshot: seq<TypeDesc>
    /** The Enable switch. */
    var enable: bool
    /** The cache-invalidation subscribers, in subscription order. */
    var subscribers: seq<nat>
    /** Whether the list-change handler is attached to the list. */
    var attached: bool
    /** Every invalidation delivered, as the subscriber it went to. */
    var notified: seq<nat>
    /** The value of the test descriptors' Hello member, shared by all owners. */
    var helloValue: Obj
    /** The type source the test descriptors belong to. */
    const source: TypeSource

    ghost predicate Valid()
      reads this
    {
      && |hardcoded| >= 2
      && (attached <==> |subscribers| > 0)
      && (forall i :: 0 <= i < |hardcoded| ==> hardcoded[i].TestType?)
    }

    /** The static initialisation: the two hard-coded descriptors, which the
        type source also lists. `listener` and `cliAction` are the
        descriptors of the interfaces they derive from. */
    constructor (listener: TypeDesc, cliAction: TypeDesc)
      ensures Valid()
      ensures hardcoded == [TestType("UnitTestType", Some(listener), false),
                            TestType("UnitTestCliActionType", Some(cliAction), true)]
      ensures source == TypeSource("TestTypeSource", ":test:", "1.0.0", hardcoded)
      ensures snapshot == [] && !enable && subscribers == [] && notified == [] && helloValue == Null
    {
      hardcoded := [TestType("UnitTestType", Some(listener), false),
                    TestType("UnitTestCliActionType", Some(cliAction), true)];
      source := TypeSource("TestTypeSource", ":test:", "1.0.0",
                           [TestType("UnitTestType", Some(listener), false),
                            TestType("UnitTestCliActionType", Some(cliAction), true)]);
      snapshot := [];
      enable := false;
      subscribers := [];
      attached := false;
      notified := [];
      helloValue := Null;
    }

    /** Types: empty when disabled; null when the snapshot is stale (its
        length differs from the list's); otherwise the snapshot. */
    function Types(): (r: Option<seq<TypeDesc>>)
      reads this
      ensures !enable ==> r == Some([])
      ensures enable ==> (r.None? <==> |snapshot| != |hardcoded|)
      ensures enable && r.Some? ==> r.value == snapshot
    {
      if !enable then Some([]) else if |snapshot| != |hardcoded| then None else Some(snapshot)
    }

    /** Sets the Enable switch. */
    method SetEnable(value: bool)
      modifies this
      ensures enable == value
      ensures hardcoded == old(hardcoded) && snapshot == old(snapshot) && subscribers == old(subscribers)
      ensures attached == old(attached) && notified == old(notified) && helloValue == old(helloValue)
    {
      enable := value;
    }

    /** Search: the snapshot becomes a copy of the current list. */
    method Search()
      modifies this
      ensures snapshot == hardcoded
      ensures hardcoded == old(hardcoded) && enable == old(enable) && subscribers == old(subscribers)
      ensures attached == old(attached) && notified == old(notified) && helloValue == old(helloValue)
    {
      snapshot := hardcoded;
    }

    /** AddType: appends one test descriptor. The list raises one change
        notification; while the handler is attached it raises one
        invalidation, delivered to every subscriber in order. */
    method AddType(name: string, baseType: Option<TypeDesc>)
      requires Valid()
      modifies this
      ensures Valid()
      ensures hardcoded == old(hardcoded) + [TestType(name, baseType, false)]
      ensures notified == old(notified) + old(subscribers)
      ensures snapshot == old(snapshot) && enable == old(enable) && subscribers == old(subscribers)
      ensures attached == old(attached) && helloValue == old(helloValue)
    {
      hardcoded := hardcoded + [TestType(name, baseType, false)];
      if attached {
        notified := notified + subscribers;
      }
    }

    /** Subscribing to CacheInvalidated: the first subscriber attaches the
        list-change handler. */
    method Subscribe(h: nat)
      requires Valid()
      modifies this
      ensures Valid()
      ensures subscribers == old(subscribers) + [h] && attached
      ensures hardcoded == old(hardcoded) && snapshot == old(snapshot) && enable == old(enable)
      ensures notified == old(notified) && helloValue == old(helloValue)
    {
      if subscribers == [] {
        attached := true;
      }
      subscribers := subscribers + [h];
    }

    /** Unsubscribing from CacheInvalidated: when no subscriber is left the
        list-change handler is detached. */
    method Unsubscribe(h: nat)
      requires Valid()
      modifies this
      ensures Valid()
      ensures subscribers == RemoveLast(old(subscribers), h)
      ensures attached == (subscribers != [])
      ensures hardcoded == old(hardcoded) && snapshot == old(snapshot) && enable == old(enable)
      ensures notified == old(notified) && helloValue == old(helloValue)
    {
      subscribers := RemoveLast(subscribers, h);
      if subscribers == [] {
        attached := false;
      }
    }

    /** GetTypeData(string): the first listed descriptor of that name. */
    function GetTypeDataByName(identifier: string): (r: Option<TypeDesc>)
      reads this
      ensures r.Some? ==> r.value in hardcoded && Name(r.value) == identifier
      ensures r.Some? ==> exists i :: 0 <= i < |hardcoded| && hardcoded[i] == r.value &&
                                      forall j :: 0 <= j < i ==> Name(hardcoded[j]) != identifier
      ensures r.None? <==> forall i :: 0 <= i < |hardcoded| ==> Name(hardcoded[i]) != identifier
    {
      FirstNamed(hardcoded, identifier)
    }

    /** GetTypeData(object): the CLI test action's object gets the last listed
        descriptor; any other object gets null. */
    function GetTypeDataOf(obj: Obj): (r: Option<TypeDesc>)
      requires Valid()
      reads this
      ensures r.Some? <==> obj.Plain? && obj.typeName == "SomeTestAction"
      ensures r.Some? ==> r.value == hardcoded[|hardcoded| - 1] && r.value.TestType?
    {
      if obj.Plain? && obj.typeName == "SomeTestAction" then Some(hardcoded[|hardcoded| - 1]) else None
    }

    /** GetSource: the test descriptors belong to the test type source; other
        descriptors to none. */
    function GetSource(t: TypeDesc): (r: Option<TypeSource>)
      reads this
      ensures r.Some? <==> t.TestType?
      ensures r.Some? ==> r.value == source
    {
      if t.TestType? then Some(source) else None
    }

    /** Every listed descriptor reports the test type source. */
    lemma ListedTypesHaveSource()
      requires Valid()
      ensures forall i :: 0 <= i < |hardcoded| ==> GetSource(hardcoded[i]) == Some(source)
    {
    }

    /** The Hello member's GetValue: the shared value, whatever the owner. */
    function GetHelloValue(owner: Obj): (r: Obj)
      reads this
      ensures r == helloValue
    {
      helloValue
    }

    /** The Hello member's SetValue: the shared value, whatever the owner. */
    method SetHelloValue(owner: Obj, value: Obj)
      modifies this
      ensures helloValue == value && GetHelloValue(owner) == value
      ensures hardcoded == old(hardcoded) && snapshot == old(snapshot) && enable == old(enable)
      ensures subscribers == old(subscribers) && attached == old(attached) && notified == old(notified)
    {
      helloValue := value;
    }
  }

  /** The invalidation scenario: with one subscriber, each of two additions
      grows the searched list by exactly one and raises exactly one
      notification; between an addition and the next Search the snapshot is
      stale; the type source still lists only the two initial types. */
  method InvalidationScenario(listener: TypeDesc, cliAction: TypeDesc)
    returns (invalidated: nat, c1: nat, c2: nat, c3: nat, stale: Option<seq<TypeDesc>>, sourceCount: nat)
    ensures c2 == c1 + 1 && c3 == c2 + 1
    ensures invalidated == 2
    ensures stale == None
    ensures sourceCount == 2
  {
    var s := new TestSearcher(listener, cliAction);
    s.SetEnable(true);
    s.Subscribe(1);
    s.Search();
    c1 := |s.Types().value|;
    s.AddType("UnitTestType2", Some(listener));
    stale := s.Types();
    s.Search();
    c2 := |s.Types().value|;
    s.AddType("UnitTestType3", Some(listener));
    s.Search();
    c3 := |s.Types().value|;
    invalidated := |s.notified|;
    sourceCount := |s.GetSource(s.hardcoded[0]).value.types|;
  }

  /** Once the last subscriber leaves, additions raise nothing. */
  method UnsubscribedScenario(listener: TypeDesc, cliAction: TypeDesc) returns (invalidated: nat)
    ensures invalidated == 0
  {
    var s := new TestSearcher(listener, cliAction);
    s.Subscribe(1);
    s.Unsubscribe(1);
    s.AddType("UnitTestType2", Some(listener));
    invalidated := |s.notified|;
  }
}
