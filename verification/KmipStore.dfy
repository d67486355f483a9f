/** The in-memory key store and the request handlers that change it. */
module KmipStore {
  import opened Wrappers
  import opened Text
  import opened KmipModel

  // ----- comparing owners -----------------------------------------------------------------

  /** Bitwise exclusive or, and or, from the lowest bit on. */
  function Xor(x: nat, y: nat): (r: nat)
    ensures r == 0 <==> x == y
    decreases x + y
  {
    if x == 0 && y == 0 then 0 else (if x % 2 != y % 2 then 1 else 0) + 2 * Xor(x / 2, y / 2)
  }

  function Or(x: nat, y: nat): (r: nat)
    ensures r == 0 <==> x == 0 && y == 0
    decreases x + y
  {
    if x == 0 && y == 0 then 0 else (if x % 2 == 1 || y % 2 == 1 then 1 else 0) + 2 * Or(x / 2, y / 2)
  }

  /** Folding both strings, padded with zeros, over the longer length, and comparing the
      lengths, decides equality. */
  method ConstantTimeEqual(a: string, b: string) returns (equal: bool)
    ensures equal <==> a == b
  {
    hide Encode, Decode, Xor, Or;
    var x, y := Encode(a), Encode(b);
    var n := if |x| > |y| then |x| else |y|;
    var diff := 0;
    for i := 0 to n
      invariant |x| == |y| ==> (diff == 0 <==> x[..i] == y[..i])
    {
      var p: byte := if i < |x| then x[i] else 0;
      var q: byte := if i < |y| then y[i] else 0;
      if |x| == |y| {
        assert x[..i + 1] == x[..i] + [p] && y[..i + 1] == y[..i] + [q];
      }
      diff := Or(diff, Xor(p, q));
    }
    equal := |x| == |y| && diff == 0;
    if |x| == |y| {
      assert x[..n] == x && y[..n] == y;
    }
    DecodeEncode(a);
    DecodeEncode(b);
  }

  method CheckOwnerAcl(o: Object, caller: Option<string>, strict: bool) returns (allowed: bool)
    ensures allowed == OwnerAllows(o, caller, strict)
  {
    if OWNER in o.attributes && o.attributes[OWNER].TextValue? {
      match caller {
        case Some(c) => allowed := ConstantTimeEqual(c, o.attributes[OWNER].text);
        case None => allowed := false;
      }
    } else {
      allowed := !(strict && caller.Some?);
    }
  }

  // ----- the store ------------------------------------------------------------------------

  method InsertAll(a: Attributes, b: Attributes) returns (r: Attributes)
    ensures r == a + b
  {
    r := a;
    var todo := b.Keys;
    while todo != {}
      invariant todo <= b.Keys
      invariant r == a + map k | k in b && k !in todo :: b[k]
    {
      var k :| k in todo;
      r := r[k := b[k]];
      todo := todo - {k};
    }
    assert (map k | k in b && k !in todo :: b[k]) == b;
  }

  class InMemoryKeyStore {
    var objects: map<string, Object>
    var typeIndex: Index
    var counter: nat
    var floor: nat

    constructor ()
      ensures State() == New()
    {
      objects := map[];
      typeIndex := map[];
      counter := 1;
      floor := 0;
    }

    function State(): Store
      reads this
    {
      Store(objects, typeIndex, counter, floor)
    }

    method IndexInsert(t: ObjectType, id: string)
      modifies this`typeIndex
      ensures typeIndex == Indexed(old(typeIndex), t, id)
    {
      if t !in typeIndex {
        typeIndex := typeIndex[t := {}];
      }
      typeIndex := typeIndex[t := typeIndex[t] + {id}];
    }

    method IndexRemove(t: ObjectType, id: string)
      modifies this`typeIndex
      ensures typeIndex == Unindexed(old(typeIndex), t, id)
    {
      if t in typeIndex {
        typeIndex := typeIndex[t := typeIndex[t] - {id}];
      }
    }

    method NowEpoch(wall: nat) returns (now: nat)
      modifies this`floor
      ensures now == floor == Later(old(floor), wall)
    {
      now := if wall > floor then wall else floor;
      floor := now;
    }

    method Create(material: bytes, attributes: Attributes, wall: nat) returns (id: string)
      modifies this
      ensures State() == Created(old(State()), material, attributes, wall)
      ensures id == GeneratedId(old(counter))
    {
      id := GeneratedId(counter);
      counter := (counter + 1) % U64_LIMIT;
      var ts := NowEpoch(wall);
      IndexInsert(SymmetricKey, id);
      objects := objects[id := Object(id, SymmetricKey, PreActive, Some(material), attributes, ts, ts)];
    }

    method Register(id: string, t: ObjectType, material: Option<bytes>, attributes: Attributes, wall: nat)
      returns (r: Result<string, Reason>)
      modifies this
      ensures State() == Registered(old(State()), id, t, material, attributes, wall)
      ensures r == if id in old(objects) then Err(ObjectNotFound) else Ok(id)
    {
      var ts := NowEpoch(wall);
      if id in objects {
        return Err(ObjectNotFound);
      }
      objects := objects[id := Object(id, t, PreActive, material, attributes, ts, ts)];
      return Ok(id);
    }

    method Activate(id: string, wall: nat) returns (r: Result<(), Reason>)
      modifies this
      ensures State() == Moved(old(State()), id, Active, wall)
      ensures r == match MoveFault(old(State()), id, Active) case Some(e) => Err(e) case None => Ok(())
    {
      if id !in objects || objects[id].state == Destroyed {
        return Err(ObjectNotFound);
      }
      if !AllowedTransition(objects[id].state, Active) {
        return Err(PermissionDenied);
      }
      var entry := objects[id].(state := Active);
      var now := NowEpoch(wall);
      objects := objects[id := entry.(modified := now)];
      return Ok(());
    }

    method Revoke(id: string, wall: nat) returns (r: Result<(), Reason>)
      modifies this
      ensures State() == Moved(old(State()), id, Deactivated, wall)
      ensures r == match MoveFault(old(State()), id, Deactivated) case Some(e) => Err(e) case None => Ok(())
    {
      if id !in objects || objects[id].state == Destroyed {
        return Err(ObjectNotFound);
      }
      if !AllowedTransition(objects[id].state, Deactivated) {
        return Err(PermissionDenied);
      }
      var entry := objects[id].(state := Deactivated);
      var now := NowEpoch(wall);
      objects := objects[id := entry.(modified := now)];
      return Ok(());
    }

    method Destroy(id: string, wall: nat) returns (r: Result<(), Reason>)
      modifies this
      ensures State() == Moved(old(State()), id, Destroyed, wall)
      ensures r == match MoveFault(old(State()), id, Destroyed) case Some(e) => Err(e) case None => Ok(())
    {
      if id !in objects || objects[id].state == Destroyed {
        return Err(ObjectNotFound);
      }
      if !AllowedTransition(objects[id].state, Destroyed) {
        return Err(PermissionDenied);
      }
      var entry := objects[id].(state := Destroyed);
      IndexRemove(entry.objectType, id);
      entry := entry.(material := None);
      var now := NowEpoch(wall);
      objects := objects[id := entry.(modified := now)];
      return Ok(());
    }

    /** The new names are walked in any order. */
    method AddAttributes(id: string, attributes: Attributes, wall: nat) returns (r: Result<(), Reason>)
      modifies this
      ensures id !in old(objects) ==> r == Err(ObjectNotFound)
      ensures id in old(objects) && r.Err? ==>
                exists k :: k in attributes && StoreAddFault(old(objects)[id].attributes, k) == Some(r.error)
      ensures r.Ok? ==>
                id in old(objects) &&
                (forall k :: k in attributes ==> StoreAddFault(old(objects)[id].attributes, k) == None) &&
                State() == WithAttributes(old(State()), id, old(objects)[id].attributes + attributes, wall)
      ensures r.Err? ==> State() == old(State())
    {
      hide StoreAddFault;
      if id !in objects {
        return Err(ObjectNotFound);
      }
      var entry := objects[id];
      var todo := attributes.Keys;
      while todo != {}
        invariant todo <= attributes.Keys
        invariant forall k :: k in attributes && k !in todo ==> StoreAddFault(entry.attributes, k) == None
      {
        var k :| k in todo;
        var fault := StoreAddFault(entry.attributes, k);
        if fault.Some? {
          return Err(fault.value);
        }
        todo := todo - {k};
      }
      var all := InsertAll(entry.attributes, attributes);
      var now := NowEpoch(wall);
      objects := objects[id := entry.(attributes := all, modified := now)];
      return Ok(());
    }

    method ModifyAttributes(id: string, attributes: Attributes, wall: nat) returns (r: Result<(), Reason>)
      modifies this
      ensures r == if id !in old(objects) then Err(ObjectNotFound)
                   else if exists k :: k in attributes && IsImmutable(k) then Err(PermissionDenied)
                   else Ok(())
      ensures State() == if r.Err? then old(State())
                         else WithAttributes(old(State()), id, old(objects)[id].attributes + attributes, wall)
    {
      hide IsImmutable;
      if id !in objects {
        return Err(ObjectNotFound);
      }
      var entry := objects[id];
      var todo := attributes.Keys;
      while todo != {}
        invariant todo <= attributes.Keys
        invariant forall k :: k in attributes && k !in todo ==> !IsImmutable(k)
      {
        var k :| k in todo;
        if IsImmutable(k) {
          return Err(PermissionDenied);
        }
        todo := todo - {k};
      }
      var all := InsertAll(entry.attributes, attributes);
      var now := NowEpoch(wall);
      objects := objects[id := entry.(attributes := all, modified := now)];
      return Ok(());
    }

    method DeleteAttributes(id: string, names: seq<string>, wall: nat) returns (r: Result<(), Reason>)
      modifies this
      ensures r == if id !in old(objects) then Err(ObjectNotFound)
                   else if exists k :: k in names && IsImmutable(k) then Err(PermissionDenied)
                   else Ok(())
      ensures State() == if r.Err? then old(State())
                         else WithAttributes(old(State()), id, old(objects)[id].attributes - (set k | k in names), wall)
    {
      hide IsImmutable;
      if id !in objects {
        return Err(ObjectNotFound);
      }
      var entry := objects[id];
      for i := 0 to |names|
        invariant forall k :: k in names[..i] ==> !IsImmutable(k)
      {
        if IsImmutable(names[i]) {
          return Err(PermissionDenied);
        }
      }
      var left := entry.attributes;
      for i := 0 to |names|
        invariant left == entry.attributes - (set k | k in names[..i])
      {
        left := left - {names[i]};
      }
      assert names[..|names|] == names;
      var now := NowEpoch(wall);
      objects := objects[id := entry.(attributes := left, modified := now)];
      return Ok(());
    }

    method DecrementUsageCounter(id: string, wall: nat) returns (left: Option<int>)
      modifies this
      ensures State() == Used(old(State()), id, wall)
      ensures left == if id in old(objects) then UsageLeft(old(objects)[id].attributes) else None
    {
      if id !in objects {
        return None;
      }
      var entry := objects[id];
      var cur;
      match Find(entry.attributes, USAGE_COUNTER) {
        case Some(LongInteger(v)) => cur := v;
        case Some(Integer(v)) => cur := v;
        case _ => return None;
      }
      var next := if cur - 1 > 0 then cur - 1 else 0;
      var now := NowEpoch(wall);
      objects := objects[id := entry.(attributes := entry.attributes[USAGE_COUNTER := LongInteger(next)], modified := now)];
      return Some(next);
    }

    /** The walk is over the type's index or over all objects; what is not there is skipped. */
    method Locate(filter: Attributes, walk: seq<string>) returns (ids: seq<string>)
      ensures ids == Found(State(), filter, walk)
    {
      hide Matches;
      ids := [];
      ghost var s := State();
      for i := 0 to |walk|
        invariant ids == Found(s, filter, walk[..i])
      {
        assert Front(walk[..i + 1]) == walk[..i] && Last(walk[..i + 1]) == walk[i];
        var hit := Candidate(filter, walk[i]);
        if hit {
          ids := ids + [walk[i]];
        }
      }
      assert walk[..|walk|] == walk;
    }

    method Candidate(filter: Attributes, id: string) returns (hit: bool)
      ensures hit == Matches(State(), filter, id)
    {
      var t := FilterType(filter);
      if t.Some? {
        if t.value !in typeIndex || id !in typeIndex[t.value] {
          return false;
        }
      }
      if id !in objects || objects[id].state == Destroyed {
        return false;
      }
      var todo := filter.Keys;
      while todo != {}
        invariant todo <= filter.Keys
        invariant forall n :: n in filter && n !in todo && !(t.Some? && n == OBJECT_TYPE) ==>
                    Find(objects[id].attributes, n) == Some(filter[n])
      {
        var n :| n in todo;
        if !(t.Some? && n == OBJECT_TYPE) && Find(objects[id].attributes, n) != Some(filter[n]) {
          return false;
        }
        todo := todo - {n};
      }
      return true;
    }

    method GetAttributes(id: string) returns (r: Option<Attributes>)
      ensures r == if id in objects then Some(AllAttributes(objects[id])) else None
    {
      hide IsSynthetic;
      if id !in objects {
        return None;
      }
      var o := objects[id];
      var attrs: Attributes := map[];
      var todo := o.attributes.Keys;
      while todo != {}
        invariant todo <= o.attributes.Keys
        invariant attrs == map n | n in o.attributes && n !in todo && !IsSynthetic(n) :: o.attributes[n]
      {
        var n :| n in todo;
        if !IsSynthetic(n) {
          attrs := attrs[n := o.attributes[n]];
        }
        todo := todo - {n};
      }
      assert attrs == map n | n in o.attributes && !IsSynthetic(n) :: o.attributes[n];
      attrs := attrs[STATE := TextValue(StateName(o.state))];
      attrs := attrs[OBJECT_TYPE := Enum(TypeCode(o.objectType))];
      attrs := attrs[INITIAL_DATE := LongInteger(AsInt64(o.created))];
      attrs := attrs[LAST_CHANGE_DATE := LongInteger(AsInt64(o.modified))];
      return Some(attrs);
    }
  }
}
