/** Type and member descriptors (ITypeData, IMemberData) for the kinds the
    expansion decorator and the test searcher build: a descriptor resolved
    elsewhere, the searcher's test descriptor, and the expanded descriptor
    that wraps another one and adds the dynamic members of an expandable
    object. */
module Descriptors {
  import opened Faults

  /** The prefix of expanded type names ("exp@"). */
  const ExpandPrefix: string := "exp@"

  /** An object a descriptor is asked about, or a dynamic member holds. */
  datatype Obj =
    | Null
    | Plain(typeName: string, payload: int)   // any object that is not IExpandedObject
    | Expandable(store: ExpandedObject)       // an IExpandedObject

  /** A type descriptor. Identity is by value here; in the source a
      descriptor is an object reference. */
  datatype TypeDesc =
    /** A descriptor resolved by the rest of the system (reflection and the like). */
    | Described(name: string, baseType: Option<TypeDesc>, canCreate: bool,
                attributes: seq<string>, members: seq<MemberDesc>)
    /** The searcher's test descriptor; it can create instances when it has a creator. */
    | TestType(name: string, baseType: Option<TypeDesc>, hasCreator: bool)
    /** The expanded descriptor: an inner descriptor and the expandable object,
        null when it was resolved from an `exp@` name. */
    | Expanded(inner: TypeDesc, obj: Option<ExpandedObject>)

  /** A member descriptor. */
  datatype MemberDesc =
    /** A member declared by a non-expanded descriptor, named by its declaring type. */
    | Declared(name: string, declaringType: string)
    /** A dynamic member of an expanded descriptor. */
    | Synthetic(name: string, declaring: TypeDesc)

  /** The dictionary-backed expandable object. `keys` lists the dictionary's
      keys in the order they were first set. */
  class ExpandedObject {
    var extra: map<string, Obj>
    var keys: seq<string>

    ghost predicate Valid()
      reads this
    {
      && (forall i, j :: 0 <= i < j < |keys| ==> keys[i] != keys[j])
      && (forall n :: n in extra <==> n in keys)
    }

    constructor ()
      ensures Valid() && extra == map[] && keys == []
    {
      extra := map[];
      keys := [];
    }

    /** The names of the dynamic members: the dictionary's keys, once each. */
    function Names(): (r: seq<string>)
      reads this
      ensures Valid() ==> (forall n :: n in r <==> n in extra) &&
                          forall i, j :: 0 <= i < j < |r| ==> r[i] != r[j]
    {
      keys
    }

    /** The value stored under `name`; null when nothing is. */
    function GetValue(name: string): (r: Obj)
      reads this
      ensures name !in extra ==> r == Null
      ensures name in extra ==> r == extra[name]
    {
      if name in extra then extra[name] else Null
    }

    /** Stores `value` under `name`, leaving every other name as it was. A new
        name is appended to the key order; an existing one keeps its place. */
    method SetValue(name: string, value: Obj)
      requires Valid()
      modifies this
      ensures Valid()
      ensures extra == old(extra)[name := value]
      ensures keys == if name in old(extra) then old(keys) else old(keys) + [name]
      ensures GetValue(name) == value
      ensures forall n :: n != name ==> GetValue(n) == old(GetValue(n))
    {
      if name !in extra {
        keys := keys + [name];
      }
      extra := extra[name := value];
    }
  }

  /** The expandable objects a descriptor holds, through all its wrappers. */
  function Stores(t: TypeDesc): set<object>
    decreases t
  {
    match t
    case Described(_, _, _, _, _) => {}
    case TestType(_, _, _) => {}
    case Expanded(inner, obj) => (if obj.Some? then {obj.value} else {}) + Stores(inner)
  }

  /** The name; an expanded descriptor is named by the prefix and its inner
      name, so stripping the prefix gives the inner name back. */
  function Name(t: TypeDesc): (r: string)
    ensures t.Expanded? ==> |ExpandPrefix| <= |r| && r[..|ExpandPrefix|] == ExpandPrefix &&
                            r[|ExpandPrefix|..] == Name(t.inner)
    ensures !t.Expanded? ==> r == t.name
    decreases t
  {
    match t
    case Described(name, _, _, _, _) => name
    case TestType(name, _, _) => name
    case Expanded(inner, _) => ExpandPrefix + Name(inner)
  }

  /** The base type; an expanded descriptor's base is its inner descriptor,
      whose name is its own without the prefix. */
  function BaseType(t: TypeDesc): (r: Option<TypeDesc>)
    ensures t.Expanded? ==> r.Some? && Name(t) == ExpandPrefix + Name(r.value)
    ensures !t.Expanded? ==> r == t.baseType
  {
    match t
    case Described(_, baseType, _, _, _) => baseType
    case TestType(_, baseType, _) => baseType
    case Expanded(inner, _) => Some(inner)
  }

  /** The descriptor under all expansion wrappers. */
  function Core(t: TypeDesc): (c: TypeDesc)
    ensures !c.Expanded?
    ensures !t.Expanded? ==> c == t
    decreases t
  {
    if t.Expanded? then Core(t.inner) else t
  }

  /** Whether instances can be created; an expanded descriptor defers to its
      inner one, so however deeply wrapped, the answer is the core's. */
  function CanCreateInstance(t: TypeDesc): (r: bool)
    ensures Core(t).TestType? ==> (r <==> Core(t).hasCreator)
    ensures Core(t).Described? ==> r == Core(t).canCreate
    decreases t
  {
    match t
    case Described(_, _, canCreate, _, _) => canCreate
    case TestType(_, _, hasCreator) => hasCreator
    case Expanded(inner, _) => CanCreateInstance(inner)
  }

  /** The attribute tags; an expanded descriptor passes on its inner one's,
      so however deeply wrapped, they are the core's. A test descriptor
      carries the one Display("unittesting") tag. */
  function Attributes(t: TypeDesc): (r: seq<string>)
    ensures Core(t).TestType? ==> r == ["Display(unittesting)"]
    ensures Core(t).Described? ==> r == Core(t).attributes
    decreases t
  {
    match t
    case Described(_, _, _, attributes, _) => attributes
    case TestType(_, _, _) => ["Display(unittesting)"]
    case Expanded(inner, _) => Attributes(inner)
  }

  /** One synthetic member per dynamic name, in order, declared by `decl`. */
  function DynamicMembers(names: seq<string>, decl: TypeDesc): (ms: seq<MemberDesc>)
    ensures |ms| == |names|
    ensures forall i :: 0 <= i < |names| ==> ms[i] == Synthetic(names[i], decl)
    decreases |names|
  {
    if names == [] then []
    else [Synthetic(names[0], decl)] + DynamicMembers(names[1..], decl)
  }

  /** GetMembers. An expanded descriptor yields its dynamic members, then its
      inner descriptor's; without an object it throws NullReferenceException
      once enumerated. */
  function Members(t: TypeDesc): (r: Result<seq<MemberDesc>>)
    reads Stores(t)
    ensures t.Expanded? && t.obj.None? ==> r == Err(NullReference)
    ensures r.Err? ==> r.fault == NullReference
    decreases t
  {
    match t
    case Described(_, _, _, _, members) => Ok(members)
    case TestType(name, _, _) => Ok([Declared("Hello", name)])
    case Expanded(inner, obj) =>
      var innerMembers := Members(inner);
      if obj.None? then Err(NullReference)
      else if innerMembers.Err? then innerMembers
      else Ok(DynamicMembers(obj.value.keys, t) + innerMembers.value)
  }

  /** The first member named `name`, if any. */
  function FindMember(members: seq<MemberDesc>, name: string): (r: Option<MemberDesc>)
    ensures r.None? <==> forall i :: 0 <= i < |members| ==> members[i].name != name
    ensures r.Some? ==> exists i :: 0 <= i < |members| && members[i] == r.value && r.value.name == name &&
                                    forall j :: 0 <= j < i ==> members[j].name != name
    decreases |members|
  {
    if members == [] then None
    else if members[0].name == name then Some(members[0])
    else
      var r := FindMember(members[1..], name);
      assert forall i :: 1 <= i < |members| ==> members[i] == members[1..][i - 1];
      r
  }

  /** GetMember: the named member, or null. An expanded descriptor never
      answers null: it makes a dynamic member of any name. */
  function GetMember(t: TypeDesc, name: string): (r: Option<MemberDesc>)
    ensures r.Some? ==> r.value.name == name
    ensures t.Expanded? ==> r == Some(Synthetic(name, t))
    ensures t.TestType? ==> (r.Some? <==> name == "Hello")
  {
    match t
    case Described(_, _, _, _, members) => FindMember(members, name)
    case TestType(typeName, _, _) => if name == "Hello" then Some(Declared("Hello", typeName)) else None
    case Expanded(_, _) => Some(Synthetic(name, t))
  }

  /** A test descriptor has one member, Hello, declared by it; GetMember and
      GetMembers agree on it. */
  lemma TestTypeMembers(t: TypeDesc)
    requires t.TestType?
    ensures Members(t) == Ok([Declared("Hello", t.name)])
    ensures GetMember(t, "Hello") == Some(Members(t).value[0])
    ensures forall n :: n != "Hello" ==> GetMember(t, n).None?
  {
  }

  /** The expanded descriptor's members: one per dynamic name, in order,
      then every inner member; the count is the sum of both. */
  lemma ExpandedMembersLayout(t: TypeDesc)
    requires t.Expanded? && t.obj.Some? && Members(t.inner).Ok?
    ensures Members(t).Ok?
    ensures |Members(t).value| == |t.obj.value.Names()| + |Members(t.inner).value|
    ensures forall i :: 0 <= i < |t.obj.value.Names()| ==>
              Members(t).value[i] == Synthetic(t.obj.value.Names()[i], t)
    ensures Members(t).value[|t.obj.value.Names()|..] == Members(t.inner).value
  {
    var names := t.obj.value.Names();
    var dyn := DynamicMembers(names, t);
    assert Members(t).value == dyn + Members(t.inner).value;
    assert (dyn + Members(t.inner).value)[|dyn|..] == Members(t.inner).value;
  }

  /** GetMember and GetMembers agree on every dynamic name. */
  lemma GetMemberAgreesWithMembers(t: TypeDesc, i: nat)
    requires t.Expanded? && t.obj.Some? && Members(t.inner).Ok?
    requires i < |t.obj.value.Names()|
    ensures Members(t).Ok? && i < |Members(t).value|
    ensures GetMember(t, t.obj.value.Names()[i]) == Some(Members(t).value[i])
  {
    ExpandedMembersLayout(t);
  }

  /** GetMember of an expanded descriptor answers for names it has no
      dynamic member for, too. */
  lemma GetMemberNeverAbsent(t: TypeDesc, name: string)
    requires t.Expanded? && t.obj.Some? && t.obj.value.Valid() && Members(t.inner).Ok?
    requires name !in t.obj.value.extra
    requires forall i :: 0 <= i < |Members(t.inner).value| ==> Members(t.inner).value[i].name != name
    ensures GetMember(t, name).Some? && GetMember(t, name).value !in Members(t).value
  {
    ExpandedMembersLayout(t);
  }

  /** The value type of a dynamic member, probed from the current value:
      null for a null value, else what the resolver gives for the value.
      Throws NullReferenceException when the declaring descriptor has no
      object (or is not expanded). */
  function MemberTypeDescriptor(m: MemberDesc, resolve: Obj -> Option<TypeDesc>): (r: Result<Option<TypeDesc>>)
    requires m.Synthetic?
    reads Stores(m.declaring)
    ensures r.Err? <==> !m.declaring.Expanded? || m.declaring.obj.None?
    ensures r.Err? ==> r.fault == NullReference
    ensures r.Ok? ==>
      var value := m.declaring.obj.value.GetValue(m.name);
      (r.value.None? <==> value == Null || resolve(value).None?) &&
      (value != Null ==> r.value == resolve(value))
  {
    if !m.declaring.Expanded? || m.declaring.obj.None? then Err(NullReference)
    else
      var value := m.declaring.obj.value.GetValue(m.name);
      if value == Null then Ok(None) else Ok(resolve(value))
  }

  /** A dynamic member's value on `owner`: the owner's stored value under the
      member's name. A null owner throws NullReferenceException, an owner
      that is not expandable InvalidCastException. */
  function MemberGetValue(m: MemberDesc, owner: Obj): (r: Result<Obj>)
    requires m.Synthetic?
    reads if owner.Expandable? then {owner.store} else {}
    ensures owner.Null? ==> r == Err(NullReference)
    ensures owner.Plain? ==> r == Err(InvalidCast)
    ensures owner.Expandable? ==> r == Ok(owner.store.GetValue(m.name))
  {
    match owner
    case Null => Err(NullReference)
    case Plain(_, _) => Err(InvalidCast)
    case Expandable(store) => Ok(store.GetValue(m.name))
  }

  /** Sets a dynamic member's value on `owner`: stores it under the member's name. */
  method MemberSetValue(m: MemberDesc, owner: Obj, value: Obj) returns (r: Outcome)
    requires m.Synthetic?
    requires owner.Expandable? ==> owner.store.Valid()
    modifies if owner.Expandable? then {owner.store} else {}
    ensures owner.Null? ==> r == Failed(NullReference)
    ensures owner.Plain? ==> r == Failed(InvalidCast)
    ensures owner.Expandable? ==>
      r == Done && owner.store.Valid() &&
      owner.store.extra == old(owner.store.extra)[m.name := value] &&
      MemberGetValue(m, owner) == Ok(value)
  {
    match owner
    case Null => r := Failed(NullReference);
    case Plain(_, _) => r := Failed(InvalidCast);
    case Expandable(store) =>
      store.SetValue(m.name, value);
      r := Done;
  }
}
