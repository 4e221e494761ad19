/** The expansion decorator's provider: it resolves `exp@<name>` names and
    expandable objects to expanded descriptors over what the rest of the
    resolution chain answers. */
module Expansion {
  import opened Faults
  import opened Descriptors

  /** Ordinal prefix test: `s` is `prefix` followed by the rest of `s`. */
  predicate StartsWith(s: string, prefix: string): (r: bool)
    ensures r <==> |prefix| <= |s| && s == prefix + s[|prefix|..]
  {
    |prefix| <= |s| && s[..|prefix|] == prefix
  }

  /** GetTypeData(string): only an identifier with the prefix is answered,
      and only when the remainder resolves; the answer wraps that descriptor
      with no object. `resolve` is the general resolver by name. */
  function GetTypeDataByName(identifier: string, resolve: string -> Option<TypeDesc>): (r: Option<TypeDesc>)
    ensures r.Some? <==> StartsWith(identifier, ExpandPrefix) && resolve(identifier[|ExpandPrefix|..]).Some?
    ensures r.Some? ==> r.value.Expanded? && r.value.obj.None? &&
                        BaseType(r.value) == resolve(identifier[|ExpandPrefix|..])
  {
    if StartsWith(identifier, ExpandPrefix) then
      var tp := resolve(identifier[|ExpandPrefix|..]);
      if tp != None then Some(Expanded(tp.value, None)) else None
    else None
  }

  /** A resolver that answers every name with a descriptor of that name. */
  ghost predicate NamesFaithful(resolve: string -> Option<TypeDesc>) {
    forall n :: resolve(n).Some? ==> Name(resolve(n).value) == n
  }

  /** Resolving `exp@n` asks the resolver for `n` and wraps its answer. */
  lemma PrefixedLookup(n: string, resolve: string -> Option<TypeDesc>)
    ensures GetTypeDataByName(ExpandPrefix + n, resolve) ==
            if resolve(n).Some? then Some(Expanded(resolve(n).value, None)) else None
  {
    assert (ExpandPrefix + n)[|ExpandPrefix|..] == n;
    assert (ExpandPrefix + n)[..|ExpandPrefix|] == ExpandPrefix;
  }

  /** Under a name-faithful resolver the wrapped descriptor is named by the
      identifier it was resolved from: `exp@` plus the inner name. */
  lemma ResolvedNameIsIdentifier(identifier: string, resolve: string -> Option<TypeDesc>)
    requires NamesFaithful(resolve)
    requires GetTypeDataByName(identifier, resolve).Some?
    ensures Name(GetTypeDataByName(identifier, resolve).value) == identifier
  {
    var rest := identifier[|ExpandPrefix|..];
    assert identifier == identifier[..|ExpandPrefix|] + rest;
    assert Name(resolve(rest).value) == rest;
  }

  /** The name round trip: the name of a wrapper resolves, by name, to a
      wrapper of the same descriptor (without an object) whenever the inner
      descriptor's own name resolves to it. */
  lemma NameRoundTrip(inner: TypeDesc, obj: Option<ExpandedObject>, resolve: string -> Option<TypeDesc>)
    requires resolve(Name(inner)) == Some(inner)
    ensures GetTypeDataByName(Name(Expanded(inner, obj)), resolve) == Some(Expanded(inner, None))
  {
    PrefixedLookup(Name(inner), resolve);
  }

  /** GetMembers on a descriptor resolved by name throws: it has no object. */
  lemma NameResolvedMembersThrow(identifier: string, resolve: string -> Option<TypeDesc>)
    requires GetTypeDataByName(identifier, resolve).Some?
    ensures Members(GetTypeDataByName(identifier, resolve).value) == Err(NullReference)
  {
  }

  /** The provider, with its re-entrancy flag. */
  class ExpandProvider {
    var excludeSelf: bool

    constructor ()
      ensures !excludeSelf
    {
      excludeSelf := false;
    }

    /** GetTypeData(object): an expandable object, asked while this provider
        is not already resolving, gets the expanded descriptor over what the
        chain answers for it with this provider excluded. Anything else gets
        null. `others` is what the providers after this one answer. */
    method GetTypeDataOf(obj: Obj, others: Obj -> Option<TypeDesc>) returns (r: Option<TypeDesc>)
      modifies this
      decreases if excludeSelf then 0 else 3
      ensures excludeSelf == old(excludeSelf)
      ensures old(excludeSelf) || !obj.Expandable? ==> r == None
      ensures !old(excludeSelf) && obj.Expandable? ==>
                r == if others(obj).Some? then Some(Expanded(others(obj).value, Some(obj.store))) else None
    {
      if obj.Expandable? && excludeSelf == false {
        excludeSelf := true;
        var found := Resolve(obj, others);
        excludeSelf := false;
        if found.Some? {
          return Some(Expanded(found.value, Some(obj.store)));
        }
      }
      return None;
    }

    /** The general resolver by object, as far as this provider sees it:
        this provider is asked first, then `others`. */
    method Resolve(obj: Obj, others: Obj -> Option<TypeDesc>) returns (r: Option<TypeDesc>)
      modifies this
      decreases if excludeSelf then 1 else 4
      ensures excludeSelf == old(excludeSelf)
      ensures old(excludeSelf) ==> r == others(obj)
      ensures !old(excludeSelf) ==>
                r == if obj.Expandable? && others(obj).Some?
                     then Some(Expanded(others(obj).value, Some(obj.store)))
                     else others(obj)
    {
      var mine := GetTypeDataOf(obj, others);
      if mine.Some? {
        r := mine;
      } else {
        r := others(obj);
      }
    }
  }

  /** An expandable object resolves once: its expanded descriptor wraps the
      plain one, never another expanded one, and the flag is clear again. */
  method ResolveExpandable(store: ExpandedObject, plain: TypeDesc) returns (r: Option<TypeDesc>, flagAfter: bool)
    ensures r == Some(Expanded(plain, Some(store)))
    ensures !flagAfter
  {
    var provider := new ExpandProvider();
    r := provider.Resolve(Expandable(store), (o: Obj) => if o.Expandable? then Some(plain) else None);
    flagAfter := provider.excludeSelf;
  }
}
