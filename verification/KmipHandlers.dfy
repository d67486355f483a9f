/** The request handlers, proved against what each request is said to do. */
module KmipHandlers {
  import opened Wrappers
  import opened Text
  import opened KmipModel
  import opened KmipStore

  lemma Prefix<T>(s: seq<T>, i: nat)
    requires i < |s|
    ensures Front(s[..i + 1]) == s[..i] && Last(s[..i + 1]) == s[i]
  {
    assert s[..i + 1][..i] == s[..i];
  }

  lemma Whole<T>(s: seq<T>)
    ensures s[..|s|] == s
  {
  }

  method AttachOwner(a: Attributes, caller: Option<string>) returns (r: Attributes)
    ensures r == Owned(a, caller)
  {
    r := a;
    if OWNER !in a {
      if caller.Some? {
        r := r[OWNER := TextValue(caller.value)];
      }
    }
  }

  /** The generator fills a buffer of the length asked for. */
  method FillBytes(stream: Stream, n: nat) returns (b: bytes)
    ensures b == seq(n, i requires 0 <= i < n => stream(i))
  {
    var buf := new byte[n];
    for i := 0 to n
      invariant forall k :: 0 <= k < i ==> buf[k] == stream(k)
    {
      buf[i] := stream(i);
    }
    b := buf[..];
  }

  method ProcessCreate(q: Request, store: InMemoryKeyStore, w: World) returns (resp: Response)
    modifies store
    ensures (store.State(), resp) == HandleCreate(old(store.State()), q, w)
  {
    var algo: Option<nat> := None;
    var bits: Option<int> := None;
    var attrs: Attributes := map[];
    for i := 0 to |q.attributes|
      invariant unchanged(store)
      invariant algo == LastEnum(q.attributes[..i], ALGORITHM)
      invariant bits == LastInteger(q.attributes[..i], LENGTH)
      invariant attrs == Collect(q.attributes[..i])
    {
      Prefix(q.attributes, i);
      var Attribute(name, value) := q.attributes[i];
      if name == ALGORITHM {
        if value.Enum? {
          algo := Some(value.code);
        }
      } else if name == LENGTH {
        if value.Integer? {
          bits := Some(value.int32);
        }
      }
      attrs := attrs[name := value];
    }
    Whole(q.attributes);
    if bits.None? {
      return Failure(Fault(InvalidField, LengthMissing));
    }
    if algo.Some? {
      match algo.value {
        case 1 =>
          if bits.value != 128 && bits.value != 192 {
            return Failure(Fault(InvalidField, BadTripleDes(bits.value)));
          }
        case 3 =>
          if bits.value != 128 && bits.value != 192 && bits.value != 256 {
            return Failure(Fault(InvalidField, BadAes(bits.value)));
          }
        case code =>
          return Failure(Fault(InvalidField, UnsupportedAlgorithm(code)));
      }
    }
    if bits.value <= 0 {
      return Failure(Fault(InvalidField, NotPositive(bits.value)));
    }
    if bits.value % 8 != 0 || bits.value < 128 {
      return Failure(Fault(InvalidField, BadLength));
    }
    attrs := AttachOwner(attrs, q.caller);
    if w.drawn.None? {
      return Failure(Fault(CryptographicFailure, RngUnavailable));
    }
    var material := FillBytes(w.drawn.value, bits.value / 8);
    assert material == Material(w.drawn.value, bits.value);
    var id := store.Create(material, attrs, w.wall);
    resp := DoneWith(id, SymmetricKey);
  }

  method ProcessRegister(q: Request, id: string, store: InMemoryKeyStore, w: World) returns (resp: Response)
    modifies store
    ensures (store.State(), resp) == HandleRegister(old(store.State()), id, q, w)
  {
    if id in store.objects {
      var allowed := CheckOwnerAcl(store.objects[id], q.caller, q.strict);
      if !allowed {
        return MISSING;
      }
    }
    var t := SymmetricKey;
    var material: Option<bytes> := None;
    var attrs: Attributes := map[];
    for i := 0 to |q.attributes|
      invariant unchanged(store)
      invariant ReadImport(q.attributes[..i]) == Ok(Import(t, material, attrs))
    {
      Prefix(q.attributes, i);
      var Attribute(name, value) := q.attributes[i];
      if name == OBJECT_TYPE {
        if value.Enum? {
          match TypeOf(value.code) {
            case Some(ot) => t := ot;
            case None =>
              UnknownType(q.attributes, i + 1);
              return Failure(Fault(InvalidField, UnknownObjectType(value.code)));
          }
        }
        attrs := attrs[name := value];
      } else if name == KEY_MATERIAL {
        if value.Bytes? {
          material := Some(value.data);
        }
      } else {
        attrs := attrs[name := value];
      }
    }
    Whole(q.attributes);
    attrs := AttachOwner(attrs, q.caller);
    var r := store.Register(id, t, material, attrs, w.wall);
    match r {
      case Ok(newId) => resp := DoneWith(newId, t);
      case Err(e) => resp := Failure(Fault(e, RegisterFailed));
    }
  }

  lemma {:induction false} UnknownType(a: seq<Attribute>, i: nat)
    requires i <= |a| && ReadImport(a[..i]).Err?
    ensures ReadImport(a) == ReadImport(a[..i])
    decreases |a| - i
  {
    if i < |a| {
      Prefix(a, i);
      UnknownType(a, i + 1);
    } else {
      Whole(a);
    }
  }

  method ProcessGet(q: Request, id: string, store: InMemoryKeyStore) returns (resp: Response)
    ensures resp == HandleGet(store.State(), id, q)
  {
    if id !in store.objects {
      return MISSING;
    }
    var o := store.objects[id];
    if o.state == Destroyed {
      return DESTROYED;
    }
    var allowed := CheckOwnerAcl(o, q.caller, q.strict);
    if !allowed {
      return MISSING;
    }
    return Success(Some(o.id), Some(o.objectType), o.material, map[], []);
  }

  method ProcessGetAttributes(q: Request, id: string, store: InMemoryKeyStore) returns (resp: Response)
    ensures resp == HandleGetAttributes(store.State(), id, q)
  {
    if id !in store.objects {
      return MISSING;
    }
    var allowed := CheckOwnerAcl(store.objects[id], q.caller, q.strict);
    if !allowed {
      return MISSING;
    }
    var attrs := store.GetAttributes(id);
    if attrs.None? {
      return MISSING;
    }
    return Success(Some(id), None, None, attrs.value, []);
  }

  method ProcessLocate(q: Request, store: InMemoryKeyStore, w: World) returns (resp: Response)
    ensures resp == HandleLocate(store.State(), q, w)
  {
    hide Matches, Collect, Names;
    var filter := CollectAttributes(q.attributes);
    var ids := store.Locate(filter, w.walk);
    var visible: seq<string> := [];
    ghost var s := store.State();
    for i := 0 to |ids|
      invariant visible == Seen(s, q.caller, ids[..i])
    {
      Prefix(ids, i);
      var allowed := false;
      if ids[i] in store.objects {
        allowed := CheckOwnerAcl(store.objects[ids[i]], q.caller, false);
      }
      if allowed {
        visible := visible + [ids[i]];
      }
    }
    Whole(ids);
    if |visible| > LOCATE_MAX {
      return Success(None, None, None, map[TRUNCATED := Integer(LOCATE_MAX)], visible[..LOCATE_MAX]);
    }
    return Success(None, None, None, map[], visible);
  }

  /** `process_activate`, `process_revoke` and `process_destroy`. */
  method ProcessMove(q: Request, id: string, store: InMemoryKeyStore, w: World) returns (resp: Response)
    modifies store
    ensures (store.State(), resp) == HandleMove(old(store.State()), id, q, w)
  {
    if id in store.objects {
      var allowed := CheckOwnerAcl(store.objects[id], q.caller, false);
      if !allowed {
        return MISSING;
      }
    }
    var r;
    if q.operation == Activate {
      r := store.Activate(id, w.wall);
    } else if q.operation == Revoke {
      r := store.Revoke(id, w.wall);
    } else {
      r := store.Destroy(id, w.wall);
    }
    resp := match r case Ok(_) => Done(id) case Err(e) => Failure(Fault(e, MoveFailed(q.operation, id)));
  }

  method ProcessCheck(q: Request, id: string, store: InMemoryKeyStore, w: World) returns (resp: Response)
    modifies store
    ensures (store.State(), resp) == HandleCheck(old(store.State()), id, q, w)
  {
    if id !in store.objects {
      return MISSING;
    }
    var o := store.objects[id];
    if o.state == Destroyed {
      return DESTROYED;
    }
    var allowed := CheckOwnerAcl(o, q.caller, q.strict);
    if !allowed {
      return MISSING;
    }
    resp := Done(o.id);
    var left := store.DecrementUsageCounter(o.id, w.wall);
    if left.Some? {
      resp := resp.(attributes := map[USAGE_COUNTER := LongInteger(left.value)]);
    }
  }

  // ----- attributes -----------------------------------------------------------------------

  /** The checks all three requests start with. */
  method CheckEdit(q: Request, id: string, store: InMemoryKeyStore) returns (fault: Option<Fault>)
    ensures fault == EditFault(store.State(), id, q)
  {
    if q.attributes == [] {
      return Some(Fault(InvalidField, NeedsAttributes(q.operation)));
    }
    if id !in store.objects {
      return Some(Fault(ObjectNotFound, NotFound));
    }
    var allowed := CheckOwnerAcl(store.objects[id], q.caller, q.strict);
    return if allowed then None else Some(Fault(ObjectNotFound, NotFound));
  }

  /** Walks the attributes up to the first one at fault. */
  method CheckNames(fault: string -> Option<Fault>, a: seq<Attribute>) returns (r: Option<Fault>)
    ensures r == FirstFault(fault, a)
  {
    for i := 0 to |a|
      invariant FirstFault(fault, a[..i]) == None
    {
      Prefix(a, i);
      if fault(a[i].name).Some? {
        FaultStays(fault, a, i + 1);
        return fault(a[i].name);
      }
    }
    Whole(a);
    return None;
  }

  lemma {:induction false} FaultStays(fault: string -> Option<Fault>, a: seq<Attribute>, i: nat)
    requires i <= |a| && FirstFault(fault, a[..i]).Some?
    ensures FirstFault(fault, a) == FirstFault(fault, a[..i])
    decreases |a| - i
  {
    if i < |a| {
      Prefix(a, i);
      FaultStays(fault, a, i + 1);
    } else {
      Whole(a);
    }
  }

  lemma {:induction false} NoFault(fault: string -> Option<Fault>, a: seq<Attribute>, name: string)
    requires FirstFault(fault, a) == None && name in Names(a)
    ensures fault(name) == None
  {
    if Last(a).name != name {
      var i :| 0 <= i < |a| && a[i].name == name;
      assert Front(a)[i].name == name;
      NoFault(fault, Front(a), name);
    }
  }

  method CollectAttributes(a: seq<Attribute>) returns (r: Attributes)
    ensures r == Collect(a) && r.Keys == Names(a)
  {
    r := map[];
    for i := 0 to |a|
      invariant r == Collect(a[..i])
      invariant r.Keys == Names(a[..i])
    {
      Prefix(a, i);
      NamesGrow(a, i);
      r := r[a[i].name := a[i].value];
    }
    Whole(a);
  }

  lemma NamesGrow(a: seq<Attribute>, i: nat)
    requires i < |a|
    ensures Names(a[..i + 1]) == Names(a[..i]) + {a[i].name}
  {
    var b := a[..i + 1];
    forall n | n in Names(b) ensures n in Names(a[..i]) + {a[i].name} {
      var j :| 0 <= j < |b| && b[j].name == n;
      assert j < i ==> a[..i][j].name == n;
    }
    forall n | n in Names(a[..i]) ensures n in Names(b) {
      var j :| 0 <= j < i && a[..i][j].name == n;
      assert b[j].name == n;
    }
    assert b[i].name == a[i].name;
  }

  lemma StoreFault(a: Attributes, name: string)
    requires AddFault(a, name) == None
    ensures StoreAddFault(a, name) == if OddBlank(name) then Some(InvalidField) else None
  {
  }

  method ProcessAdd(q: Request, id: string, store: InMemoryKeyStore, w: World) returns (resp: Response)
    modifies store
    ensures (store.State(), resp) == HandleAdd(old(store.State()), id, q, w)
  {
    hide AddFault, StoreAddFault, OddBlank, FirstFault, Collect, Names;
    var edit := CheckEdit(q, id, store);
    if edit.Some? {
      return Failure(edit.value);
    }
    var a := store.objects[id].attributes;
    var f := name => AddFault(a, name);
    var fault := CheckNames(f, q.attributes);
    if fault.Some? {
      return Failure(fault.value);
    }
    forall n | n in Names(q.attributes)
      ensures StoreAddFault(a, n) == if OddBlank(n) then Some(InvalidField) else None
    {
      NoFault(f, q.attributes, n);
      StoreFault(a, n);
    }
    var attrs := CollectAttributes(q.attributes);
    var r := store.AddAttributes(id, attrs, w.wall);
    resp := match r case Ok(_) => Done(id) case Err(e) => Failure(Fault(e, AddFailed));
  }

  method ProcessModify(q: Request, id: string, store: InMemoryKeyStore, w: World) returns (resp: Response)
    modifies store
    ensures (store.State(), resp) == HandleModify(old(store.State()), id, q, w)
  {
    hide IsImmutable, FirstFault, Collect, Names;
    var edit := CheckEdit(q, id, store);
    if edit.Some? {
      return Failure(edit.value);
    }
    var a := store.objects[id].attributes;
    var f := name => ChangeFault(q.operation, a, name);
    var fault := CheckNames(f, q.attributes);
    if fault.Some? {
      return Failure(fault.value);
    }
    forall n | n in Names(q.attributes) ensures !IsImmutable(n) {
      NoFault(f, q.attributes, n);
    }
    var attrs := CollectAttributes(q.attributes);
    var r := store.ModifyAttributes(id, attrs, w.wall);
    resp := match r case Ok(_) => Done(id) case Err(e) => Failure(Fault(e, ModifyFailed));
  }

  method ProcessDelete(q: Request, id: string, store: InMemoryKeyStore, w: World) returns (resp: Response)
    modifies store
    ensures (store.State(), resp) == HandleDelete(old(store.State()), id, q, w)
  {
    hide IsImmutable, FirstFault;
    var edit := CheckEdit(q, id, store);
    if edit.Some? {
      return Failure(edit.value);
    }
    var a := store.objects[id].attributes;
    var f := name => ChangeFault(q.operation, a, name);
    var fault := CheckNames(f, q.attributes);
    if fault.Some? {
      return Failure(fault.value);
    }
    forall n | n in Names(q.attributes) ensures !IsImmutable(n) {
      NoFault(f, q.attributes, n);
    }
    var names := seq(|q.attributes|, i requires 0 <= i < |q.attributes| => q.attributes[i].name);
    assert forall i :: 0 <= i < |q.attributes| ==> q.attributes[i].name == names[i];
    assert (set k | k in names) == Names(q.attributes);
    var r := store.DeleteAttributes(id, names, w.wall);
    resp := match r case Ok(_) => Done(id) case Err(e) => Failure(Fault(e, DeleteFailed));
  }

  method ProcessDerive(q: Request, id: string, store: InMemoryKeyStore, w: World) returns (resp: Response)
    modifies store
    ensures (store.State(), resp) == HandleDerive(old(store.State()), id, q, w)
  {
    var bits: Option<int> := None;
    var salt: bytes := [];
    var info: bytes := [];
    for i := 0 to |q.attributes|
      invariant unchanged(store)
      invariant bits == LastInteger(q.attributes[..i], LENGTH)
      invariant salt == LastBytes(q.attributes[..i], "Salt") && info == LastBytes(q.attributes[..i], "Info")
    {
      Prefix(q.attributes, i);
      var Attribute(name, value) := q.attributes[i];
      if name == LENGTH {
        if value.Integer? {
          bits := Some(value.int32);
        }
      } else if name == "Salt" {
        if value.Bytes? {
          salt := value.data;
        }
      } else if name == "Info" {
        if value.Bytes? {
          info := value.data;
        }
      }
    }
    Whole(q.attributes);
    if !DeriveLength(bits) {
      return Failure(Fault(InvalidField, DeriveBadLength));
    }
    if id !in store.objects || store.objects[id].state == Destroyed {
      return Failure(Fault(ObjectNotFound, DeriveInputMissing));
    }
    var ikm := store.objects[id];
    var allowed := CheckOwnerAcl(ikm, q.caller, q.strict);
    if !allowed {
      return MISSING;
    }
    if ikm.material.None? || ikm.material.value == [] {
      return Failure(Fault(CryptographicFailure, DeriveNoMaterial));
    }
    var stream := w.hkdf(salt, ikm.material.value, info);
    if stream.None? {
      return Failure(Fault(CryptographicFailure, DeriveExpandFailed));
    }
    var material := FillBytes(stream.value, bits.value / 8);
    assert material == Material(stream.value, bits.value);
    var attrs := AttachOwner(map[], q.caller);
    attrs := attrs[LENGTH := Integer(bits.value)];
    attrs := attrs[DERIVED_FROM := TextValue(id)];
    var newId := store.Create(material, attrs, w.wall);
    resp := DoneWith(newId, SymmetricKey);
  }

  /** One request. */
  method Process(q: Request, store: InMemoryKeyStore, w: World) returns (resp: Response)
    modifies store
    ensures (store.State(), resp) == Handle(old(store.State()), q, w)
  {
    hide HandleCreate, HandleRegister, HandleGet, HandleGetAttributes, HandleLocate, HandleMove, HandleCheck, HandleAdd, HandleModify, HandleDelete, HandleDerive;
    if q.operation == Create {
      resp := ProcessCreate(q, store, w);
      return;
    }
    if q.operation == Locate {
      resp := ProcessLocate(q, store, w);
      return;
    }
    if q.operation == Other {
      return DoneBare();
    }
    if q.uniqueId.None? {
      return Failure(Fault(InvalidMessage, NeedsId(q.operation)));
    }
    var id := q.uniqueId.value;
    match q.operation {
      case Register => resp := ProcessRegister(q, id, store, w);
      case Get => resp := ProcessGet(q, id, store);
      case GetAttributes => resp := ProcessGetAttributes(q, id, store);
      case Activate => resp := ProcessMove(q, id, store, w);
      case Revoke => resp := ProcessMove(q, id, store, w);
      case Destroy => resp := ProcessMove(q, id, store, w);
      case Check => resp := ProcessCheck(q, id, store, w);
      case AddAttribute => resp := ProcessAdd(q, id, store, w);
      case ModifyAttribute => resp := ProcessModify(q, id, store, w);
      case DeleteAttribute => resp := ProcessDelete(q, id, store, w);
      case DeriveKey => resp := ProcessDerive(q, id, store, w);
    }
  }
}
