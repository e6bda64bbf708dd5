/**
 * The Element navigation of selector.go. An Element keeps the caller's raw
 * selector map (`original`, shared with the caller: Go maps are references)
 * and the compiled selector sent to the device (`selector`). `Eq` writes into
 * the shared map and recompiles it; `Child` and `Sibling` set the relation
 * fields of the compiled selector; `childByMethod` swaps the compiled
 * selector for a server handle.
 *
 * Each operation is a method on the class, specified by a pure step function
 * on the two fields; the lemmas below are about the step functions.
 */
module Elements {
  import opened Wrappers
  import opened Selectors

  const InstanceKey: string := "instance"

  /** The two selector fields of an Element, as values. */
  datatype State = State(original: Selector, selector: Selector)

  /** The state after an operation, and the error it returned, if any. */
  datatype Step = Step(state: State, error: Option<Error>)

  /** A remote call of childByMethod: the method name and its parameters. */
  datatype Request = Request(name: string, params: seq<Value>)

  /** `Eq`: store the index as the "instance" attribute of the raw selector,
      then recompile it; the raw selector keeps the new index even when the
      recompilation fails. */
  ghost function EqStep(s: State, index: int): Step
  {
    var o := s.original[InstanceKey := Int(index)];
    match Compile(o)
    case Success(c) => Step(State(o, c), None)
    case Failure(e) => Step(State(o, s.selector), Some(e))
  }

  /** `Child` ("child") and `Sibling` ("sibling"): compile the related
      selector and overwrite the two relation fields of the compiled
      selector with it. */
  ghost function RelateStep(s: State, kind: string, related: Selector): Step
  {
    match Compile(related)
    case Failure(e) => Step(s, Some(e))
    case Success(c) =>
      Step(State(s.original, s.selector[RelationKey := List([Str(kind)])][RelatedKey := List([Sel(c)])]), None)
  }

  /** The call `childByMethod` makes once the child selector compiles: the
      whole compiled selector of the element, the child selector, the
      keywords and `true`. */
  ghost function ChildRequest(s: State, keywords: string, methodName: string, child: Selector): Option<Request>
  {
    match Compile(child)
    case Failure(_) => None
    case Success(c) => Some(Request(methodName, [Sel(s.selector), Sel(c), Str(keywords), Bool(true)]))
  }

  /** `childByMethod`, given the server's reply to that call: on success the
      compiled selector becomes the bare server handle. */
  ghost function ChildByMethodStep(s: State, child: Selector, reply: Result<string, Error>): Step
  {
    match Compile(child)
    case Failure(e) => Step(s, Some(e))
    case Success(_) =>
      match reply
      case Failure(e) => Step(s, Some(e))
      case Success(uid) => Step(State(s.original, map[UidKey := Str(uid)]), None)
  }

  /** "instance" is one of the attributes. */
  lemma InstanceIsAttribute()
    ensures InstanceKey in MaskTable
  {
    TableRows20To24(InstanceKey);
  }

  /** Eq fails exactly when the raw selector holds a key, other than
      "instance", that is not an attribute. */
  lemma EqSucceedsIff(s: State, index: int)
    ensures EqStep(s, index).error.None? <==> s.original.Keys - {InstanceKey} <= MaskTable.Keys
  {
    InstanceIsAttribute();
    var o := s.original[InstanceKey := Int(index)];
    assert o.Keys == s.original.Keys + {InstanceKey};
  }

  /** Writing "instance" into a raw selector that compiles leaves one that
      still compiles. */
  lemma InstanceKeepsCompiling(raw: Selector, index: int)
    ensures Compile(raw).Success? ==> Compile(raw[InstanceKey := Int(index)]).Success?
  {
    InstanceIsAttribute();
    assert raw[InstanceKey := Int(index)].Keys == raw.Keys + {InstanceKey};
  }

  /** A successful Eq leaves a freshly compiled selector: the raw
      attributes with the new index, no relation and no server handle, so
      the whole selector is sent again. */
  lemma EqResets(s: State, index: int)
    requires EqStep(s, index).error.None?
    ensures EqStep(s, index).state.original == s.original[InstanceKey := Int(index)]
    ensures EqStep(s, index).state.selector - FixedKeys == EqStep(s, index).state.original
    ensures EqStep(s, index).state.selector[RelationKey] == List([])
    ensures EqStep(s, index).state.selector[RelatedKey] == List([])
    ensures GetParams(EqStep(s, index).state.selector) == Sel(EqStep(s, index).state.selector)
  {
    var o := s.original[InstanceKey := Int(index)];
    CompileShape(o);
    CompileRoundTrip(o);
    CompiledSentWhole(o);
  }

  /** Eq(i) then Eq(j) ends in the same state, with the same result, as
      Eq(j) alone. */
  lemma EqLastWins(s: State, i: int, j: int)
    ensures EqStep(EqStep(s, i).state, j) == EqStep(s, j)
  {
    var o1 := s.original[InstanceKey := Int(i)];
    var o2 := s.original[InstanceKey := Int(j)];
    assert o1[InstanceKey := Int(j)] == o2;
    CompileSucceedsOnKeys(o1, o2);
  }

  /** Child and Sibling change nothing when the related selector does not
      compile; otherwise they change the two relation fields and nothing
      else. */
  lemma RelateFrame(s: State, kind: string, related: Selector)
    ensures RelateStep(s, kind, related).state.original == s.original
    ensures RelateStep(s, kind, related).error.Some? <==> Compile(related).Failure?
    ensures Compile(related).Failure? ==>
      RelateStep(s, kind, related) == Step(s, Some(InvalidSelector(related)))
    ensures Compile(related).Success? ==>
      var t := RelateStep(s, kind, related).state.selector;
      && t.Keys == s.selector.Keys + {RelationKey, RelatedKey}
      && (forall k :: k in s.selector && k != RelationKey && k != RelatedKey ==> t[k] == s.selector[k])
      && t[RelationKey] == List([Str(kind)])
      && t[RelatedKey] == List([Sel(Compile(related).value)])
  {
    match Compile(related)
    case Failure(_) =>
    case Success(c) =>
      var t := s.selector[RelationKey := List([Str(kind)])][RelatedKey := List([Sel(c)])];
      assert t.Keys == s.selector.Keys + {RelationKey, RelatedKey};
  }

  /** Relations do not nest: a successful Child or Sibling discards the
      previous one. */
  lemma RelateLastWins(s: State, kind1: string, related1: Selector, kind2: string, related2: Selector)
    requires Compile(related2).Success?
    ensures RelateStep(RelateStep(s, kind1, related1).state, kind2, related2) == RelateStep(s, kind2, related2)
  {
    match Compile(related1)
    case Failure(_) =>
    case Success(c1) =>
      RelationsOverwritten(s.selector, List([Str(kind1)]), List([Sel(c1)]),
        List([Str(kind2)]), List([Sel(Compile(related2).value)]));
  }

  lemma RelationsOverwritten(m: Selector, kind1: Value, related1: Value, kind2: Value, related2: Value)
    ensures m[RelationKey := kind1][RelatedKey := related1][RelationKey := kind2][RelatedKey := related2]
         == m[RelationKey := kind2][RelatedKey := related2]
  {
  }

  /** Once the selector is a server handle, Child and Sibling no longer
      change what is sent to the device. */
  lemma RelateAfterHandleUnseen(s: State, kind: string, related: Selector)
    requires UidKey in s.selector
    ensures GetParams(RelateStep(s, kind, related).state.selector) == GetParams(s.selector)
  {
  }

  /** childByMethod changes nothing unless the child selector compiles and
      the call succeeds; then the selector is exactly the handle, which is
      what is sent from then on. The raw selector is never touched. */
  lemma ChildByMethodOutcome(s: State, child: Selector, reply: Result<string, Error>)
    ensures ChildByMethodStep(s, child, reply).state.original == s.original
    ensures ChildByMethodStep(s, child, reply).error.None? <==> Compile(child).Success? && reply.Success?
    ensures ChildByMethodStep(s, child, reply).error.Some? ==> ChildByMethodStep(s, child, reply).state == s
    ensures ChildByMethodStep(s, child, reply).error.None? ==>
      && ChildByMethodStep(s, child, reply).state.selector == map[UidKey := Str(reply.value)]
      && GetParams(ChildByMethodStep(s, child, reply).state.selector) == Str(reply.value)
  {
  }

  /** childByMethod sends the element's whole compiled selector, not
      `getParams` of it: after an earlier childByMethod the request carries
      the map holding the handle rather than the bare handle. */
  lemma ChildRequestSendsWholeSelector(s: State, keywords: string, methodName: string, child: Selector)
    requires Compile(child).Success?
    ensures ChildRequest(s, keywords, methodName, child).Some?
    ensures ChildRequest(s, keywords, methodName, child).value.params[0] == Sel(s.selector)
    ensures UidKey in s.selector && s.selector[UidKey].Str? ==>
      ChildRequest(s, keywords, methodName, child).value.params[0] != GetParams(s.selector)
  {
  }

  /** The fields of an element agree with each other: the raw selector
      compiles, and unless the selector has become a server handle its
      attributes and mask are those of the raw selector. */
  ghost predicate Consistent(s: State)
  {
    && Compile(s.original).Success?
    && (UidKey !in s.selector ==>
          && s.selector - FixedKeys == s.original
          && MaskKey in s.selector
          && s.selector[MaskKey] == Compile(s.original).value[MaskKey])
  }

  lemma CreatedConsistent(raw: Selector)
    requires Compile(raw).Success?
    ensures Consistent(State(raw, Compile(raw).value))
  {
    CompileShape(raw);
    CompileRoundTrip(raw);
    CompiledSentWhole(raw);
  }

  /** On a consistent element Eq cannot fail, and it keeps the element
      consistent. */
  lemma EqKeepsConsistent(s: State, index: int)
    requires Consistent(s)
    ensures EqStep(s, index).error.None?
    ensures Consistent(EqStep(s, index).state)
  {
    EqSucceedsIff(s, index);
    CreatedConsistent(s.original[InstanceKey := Int(index)]);
  }

  lemma RelateKeepsConsistent(s: State, kind: string, related: Selector)
    requires Consistent(s)
    ensures Consistent(RelateStep(s, kind, related).state)
  {
    match Compile(related)
    case Failure(_) =>
    case Success(c) =>
      RelationsBesideAttributes(s.selector, List([Str(kind)]), List([Sel(c)]));
  }

  /** Setting the relation fields touches neither the attributes, nor the
      mask, nor the server handle. */
  lemma RelationsBesideAttributes(m: Selector, kind: Value, related: Value)
    ensures m[RelationKey := kind][RelatedKey := related] - FixedKeys == m - FixedKeys
    ensures UidKey in m[RelationKey := kind][RelatedKey := related] <==> UidKey in m
    ensures MaskKey in m ==> m[RelationKey := kind][RelatedKey := related][MaskKey] == m[MaskKey]
  {
    ReservedKeysNotInTable();
    var t := m[RelationKey := kind][RelatedKey := related];
    assert (t - FixedKeys).Keys == (m - FixedKeys).Keys;
  }

  lemma ChildByMethodKeepsConsistent(s: State, child: Selector, reply: Result<string, Error>)
    requires Consistent(s)
    ensures Consistent(ChildByMethodStep(s, child, reply).state)
  {
  }

  /** A Go `Selector` map value: a reference several holders may share. */
  class SelectorRef {
    var entries: Selector

    constructor(entries: Selector)
      ensures this.entries == entries
    {
      this.entries := entries;
    }
  }

  class Element {
    var original: SelectorRef
    var selector: Selector

    ghost function View(): State
      reads this, original
    {
      State(original.entries, selector)
    }

    constructor(original: SelectorRef, selector: Selector)
      ensures this.original == original && this.selector == selector
    {
      this.original := original;
      this.selector := selector;
    }

    /** `Eq`: the element itself is the Go result, so only the error is
        returned. */
    method Eq(index: int) returns (err: Option<Error>)
      modifies this, original
      ensures original == old(original)
      ensures View() == EqStep(old(View()), index).state
      ensures err == EqStep(old(View()), index).error
    {
      original.entries := original.entries[InstanceKey := Int(index)];
      var recompiled := ParseSelector(original.entries);
      if recompiled.Failure? {
        return Some(recompiled.error);
      }
      selector := recompiled.value;
      return None;
    }

    method Child(related: Selector) returns (err: Option<Error>)
      modifies this
      ensures original == old(original)
      ensures View() == RelateStep(old(View()), "child", related).state
      ensures err == RelateStep(old(View()), "child", related).error
    {
      var compiled := ParseSelector(related);
      if compiled.Failure? {
        return Some(compiled.error);
      }
      selector := selector[RelationKey := List([Str("child")])];
      selector := selector[RelatedKey := List([Sel(compiled.value)])];
      return None;
    }

    method Sibling(related: Selector) returns (err: Option<Error>)
      modifies this
      ensures original == old(original)
      ensures View() == RelateStep(old(View()), "sibling", related).state
      ensures err == RelateStep(old(View()), "sibling", related).error
    {
      var compiled := ParseSelector(related);
      if compiled.Failure? {
        return Some(compiled.error);
      }
      selector := selector[RelationKey := List([Str("sibling")])];
      selector := selector[RelatedKey := List([Sel(compiled.value)])];
      return None;
    }

    /** `childByMethod`; reply stands for the server's answer to the call
        returned in request: the handle, or the error of the failed call,
        such as `Transport`. */
    method ChildByMethod(keywords: string, methodName: string, child: Selector, reply: Result<string, Error>)
      returns (request: Option<Request>, err: Option<Error>)
      modifies this
      ensures original == old(original)
      ensures request == ChildRequest(old(View()), keywords, methodName, child)
      ensures View() == ChildByMethodStep(old(View()), child, reply).state
      ensures err == ChildByMethodStep(old(View()), child, reply).error
    {
      var compiled := ParseSelector(child);
      if compiled.Failure? {
        return None, Some(compiled.error);
      }
      request := Some(Request(methodName, [Sel(selector), Sel(compiled.value), Str(keywords), Bool(true)]));
      if reply.Failure? {
        return request, Some(reply.error);
      }
      selector := map[UidKey := Str(reply.value)];
      err := None;
    }

    method ChildByText(keywords: string, child: Selector, reply: Result<string, Error>)
      returns (request: Option<Request>, err: Option<Error>)
      modifies this
      ensures original == old(original)
      ensures request == ChildRequest(old(View()), keywords, "childByText", child)
      ensures View() == ChildByMethodStep(old(View()), child, reply).state
      ensures err == ChildByMethodStep(old(View()), child, reply).error
    {
      request, err := ChildByMethod(keywords, "childByText", child, reply);
    }

    method ChildByDescription(keywords: string, child: Selector, reply: Result<string, Error>)
      returns (request: Option<Request>, err: Option<Error>)
      modifies this
      ensures original == old(original)
      ensures request == ChildRequest(old(View()), keywords, "childByDescription", child)
      ensures View() == ChildByMethodStep(old(View()), child, reply).state
      ensures err == ChildByMethodStep(old(View()), child, reply).error
    {
      request, err := ChildByMethod(keywords, "childByDescription", child, reply);
    }
  }

  /** `GetElementBySelector`: the new element keeps the caller's map itself
      as its raw selector. */
  method GetElementBySelector(raw: SelectorRef) returns (r: Result<Element, Error>)
    ensures r.Success? <==> Compile(raw.entries).Success?
    ensures r.Failure? ==> r.error == Compile(raw.entries).error
    ensures r.Success? ==> fresh(r.value) && r.value.original == raw
    ensures r.Success? ==> r.value.selector == Compile(raw.entries).value
    ensures r.Success? ==> Consistent(r.value.View())
  {
    var compiled := ParseSelector(raw.entries);
    if compiled.Failure? {
      return Failure(compiled.error);
    }
    CreatedConsistent(raw.entries);
    var e := new Element(raw, compiled.value);
    return Success(e);
  }

  /** Two elements made from the same map share it: Eq on one of them
      rewrites the raw selector of the other as well, while the other's
      compiled selector stays as it was; the written key is an attribute,
      so the other's raw selector still compiles if it did before. */
  method EqOnSharedMap(e: Element, other: Element, index: int) returns (err: Option<Error>)
    requires e != other && e.original == other.original
    modifies e, e.original
    ensures other.View().original == old(other.View().original)[InstanceKey := Int(index)]
    ensures other.selector == old(other.selector)
    ensures err == EqStep(old(e.View()), index).error
    ensures Compile(old(other.View().original)).Success? ==> Compile(other.View().original).Success?
  {
    InstanceKeepsCompiling(other.original.entries, index);
    err := e.Eq(index);
  }
}
