/** What each request does when it succeeds, and exactly when that is. */
module KmipEffects {
  import opened Wrappers
  import opened Text
  import opened KmipModel
  import opened KmipRuns

  // ----- attributes of a request ------------------------------------------------------------

  function LastValue(a: seq<Attribute>, name: string): Option<Value> {
    if a == [] then None else if Last(a).name == name then Some(Last(a).value) else LastValue(Front(a), name)
  }

  lemma NamesFront(a: seq<Attribute>, n: string)
    requires a != []
    ensures n in Names(a) <==> n in Names(Front(a)) || n == Last(a).name
  {
    if n in Names(a) {
      var i :| 0 <= i < |a| && a[i].name == n;
      assert i < |a| - 1 ==> Front(a)[i].name == n;
    }
    if n in Names(Front(a)) {
      var i :| 0 <= i < |a| - 1 && Front(a)[i].name == n;
      assert a[i].name == n;
    }
    assert a[|a| - 1] == Last(a);
  }

  lemma {:induction false} CollectLast(a: seq<Attribute>, n: string)
    ensures Find(Collect(a), n) == LastValue(a, n)
    ensures n in Names(a) <==> LastValue(a, n).Some?
  {
    hide Names;
    if a == [] {
      assert n !in Names([]) by { NoNames(n); }
    } else {
      CollectLast(Front(a), n);
      NamesFront(a, n);
    }
  }

  lemma NoNames(n: string)
    ensures n !in Names([])
  {
  }

  /** No fault in a request means no fault of any name in it. */
  lemma {:induction false} FaultFree(fault: string -> Option<Fault>, a: seq<Attribute>)
    ensures FirstFault(fault, a) == None <==> forall n :: n in Names(a) ==> fault(n) == None
  {
    hide Names;
    if a == [] {
      forall n ensures n !in Names([]) { NoNames(n); }
    } else {
      FaultFree(fault, Front(a));
      forall n ensures n in Names(a) <==> n in Names(Front(a)) || n == Last(a).name { NamesFront(a, n); }
    }
  }

  // ----- Activate, Revoke, Destroy ----------------------------------------------------------

  /** From where each of the three leads, and whereto. */
  predicate Moving(op: Operation, from: State, to: State) {
    match op
    case Activate => from == PreActive && to == Active
    case Revoke => from == Active && to == Deactivated
    case Destroy => (from == PreActive || from == Deactivated) && to == Destroyed
    case _ => false
  }

  lemma MoveEffect(s: Store, q: Request, w: World, id: string, to: State)
    requires q.operation == Activate || q.operation == Revoke || q.operation == Destroy
    requires q.uniqueId == Some(id) && to == (match q.operation case Activate => Active case Revoke => Deactivated case _ => Destroyed)
    ensures var (s', r) := Handle(s, q, w);
            && (r.Success? <==> id in s.objects && OwnerAllows(s.objects[id], q.caller, false) && Moving(q.operation, s.objects[id].state, to))
            && (r.Success? ==>
                  && r == Success(Some(id), None, None, map[], []) && id in s'.objects
                  && s'.objects[id] == s.objects[id].(state := to, modified := s'.floor,
                                                      material := if to == Destroyed then None else s.objects[id].material)
                  && s'.floor == Later(s.floor, w.wall) && s'.objects == s.objects[id := s'.objects[id]])
            && (!r.Success? ==> s' == s)
  {
    hide OwnerAllows, Later;
  }

  // ----- attributes -------------------------------------------------------------------------

  predicate Addable(a: Attributes, name: string) {
    && name != "" && Trim(name) == name && (forall c :: c in name && IsSpace(c) ==> c == ' ')
    && !IsImmutable(name) && forall k :: k in a ==> Lower(k) != Lower(name)
  }

  lemma AddableIff(a: Attributes, name: string)
    ensures AddFault(a, name) == None && !OddBlank(name) <==> Addable(a, name)
  {
    hide Trim, IsSpace, IsImmutable, Lower;
    ControlBlanks();
  }

  lemma ControlBlanks()
    ensures IsSpace('\t') && IsSpace('\n') && IsSpace('\r')
  {
  }

  /** Attributes after new values were set. */
  ghost predicate SetTo(before: Attributes, a: seq<Attribute>, after: Attributes) {
    forall n :: Find(after, n) == if LastValue(a, n).Some? then LastValue(a, n) else Find(before, n)
  }

  lemma MergeSets(before: Attributes, a: seq<Attribute>)
    ensures SetTo(before, a, before + Collect(a))
  {
    hide Collect, LastValue;
    forall n ensures Find(before + Collect(a), n) == if LastValue(a, n).Some? then LastValue(a, n) else Find(before, n) {
      CollectLast(a, n);
    }
  }

  /** An attribute request changes the attributes and the time of one object. */
  predicate Edited(s: Store, s': Store, id: string, wall: nat) {
    && id in s.objects && id in s'.objects && s'.floor == Later(s.floor, wall)
    && s'.objects[id] == s.objects[id].(attributes := s'.objects[id].attributes, modified := s'.floor)
    && s'.objects == s.objects[id := s'.objects[id]]
  }

  lemma AddEffect(s: Store, q: Request, w: World, id: string)
    requires q.operation == AddAttribute && q.uniqueId == Some(id)
    ensures var (s', r) := Handle(s, q, w);
            && (r.Success? <==> q.attributes != [] && id in s.objects && OwnerAllows(s.objects[id], q.caller, q.strict) &&
                                forall n :: n in Names(q.attributes) ==> Addable(s.objects[id].attributes, n))
            && (r.Success? ==> r == Success(Some(id), None, None, map[], []) && Edited(s, s', id, w.wall) &&
                               SetTo(s.objects[id].attributes, q.attributes, s'.objects[id].attributes))
            && (!r.Success? ==> s' == s)
  {
    hide OwnerAllows, Addable, AddFault, OddBlank, FirstFault, Collect, Names, SetTo, Later;
    if EditFault(s, id, q).None? {
      var a := s.objects[id].attributes;
      FaultFree(name => AddFault(a, name), q.attributes);
      forall n ensures AddFault(a, n) == None && !OddBlank(n) <==> Addable(a, n) { AddableIff(a, n); }
      MergeSets(a, q.attributes);
    }
  }

  lemma ModifyEffect(s: Store, q: Request, w: World, id: string)
    requires q.operation == ModifyAttribute && q.uniqueId == Some(id)
    ensures var (s', r) := Handle(s, q, w);
            && (r.Success? <==> q.attributes != [] && id in s.objects && OwnerAllows(s.objects[id], q.caller, q.strict) &&
                                forall n :: n in Names(q.attributes) ==> n in s.objects[id].attributes && !IsImmutable(n))
            && (r.Success? ==> r == Success(Some(id), None, None, map[], []) && Edited(s, s', id, w.wall) &&
                               SetTo(s.objects[id].attributes, q.attributes, s'.objects[id].attributes))
            && (!r.Success? ==> s' == s)
  {
    hide OwnerAllows, FirstFault, Collect, Names, SetTo, IsImmutable, Later;
    if EditFault(s, id, q).None? {
      var a := s.objects[id].attributes;
      FaultFree(name => ChangeFault(q.operation, a, name), q.attributes);
      MergeSets(a, q.attributes);
    }
  }

  lemma DeleteEffect(s: Store, q: Request, w: World, id: string)
    requires q.operation == DeleteAttribute && q.uniqueId == Some(id)
    ensures var (s', r) := Handle(s, q, w);
            && (r.Success? <==> q.attributes != [] && id in s.objects && OwnerAllows(s.objects[id], q.caller, q.strict) &&
                                forall n :: n in Names(q.attributes) ==> n in s.objects[id].attributes && !IsImmutable(n))
            && (r.Success? ==>
                  && r == Success(Some(id), None, None, map[], []) && Edited(s, s', id, w.wall)
                  && (forall n :: Find(s'.objects[id].attributes, n) ==
                                  if n in Names(q.attributes) then None else Find(s.objects[id].attributes, n)))
            && (!r.Success? ==> s' == s)
  {
    hide OwnerAllows, FirstFault, Names, IsImmutable, Later;
    if EditFault(s, id, q).None? {
      var a := s.objects[id].attributes;
      FaultFree(name => ChangeFault(q.operation, a, name), q.attributes);
    }
  }

  /** The usage counter of an object, if it has a number for one. */
  function UsageOf(a: Attributes): Option<int> {
    match Find(a, USAGE_COUNTER)
    case Some(LongInteger(v)) => Some(v)
    case Some(Integer(v)) => Some(v)
    case _ => None
  }

  /** Check answers for a live object its caller may see, and counts one use down to zero. */
  lemma CheckEffect(s: Store, q: Request, w: World, id: string)
    requires Sound(s) && q.operation == Check && q.uniqueId == Some(id)
    ensures var (s', r) := Handle(s, q, w);
            && (r.Success? <==> id in s.objects && s.objects[id].state != Destroyed && OwnerAllows(s.objects[id], q.caller, q.strict))
            && (r.Success? ==>
                  match UsageOf(s.objects[id].attributes)
                  case None => s' == s && r == Success(Some(id), None, None, map[], [])
                  case Some(v) =>
                    var left := LongInteger(if v >= 1 then v - 1 else 0);
                    && r == Success(Some(id), None, None, map[USAGE_COUNTER := left], []) && Edited(s, s', id, w.wall)
                    && (forall n :: Find(s'.objects[id].attributes, n) ==
                                    if n == USAGE_COUNTER then Some(left) else Find(s.objects[id].attributes, n)))
            && (!r.Success? ==> s' == s)
  {
    hide OwnerAllows, Later, UsageLeft, UsageOf, Sound;
    if id in s.objects {
      SoundAt(s, id);
      UsageMeans(s.objects[id].attributes);
    }
  }

  lemma UsageMeans(a: Attributes)
    ensures UsageLeft(a) == match UsageOf(a) case None => None case Some(v) => Some(if v >= 1 then v - 1 else 0)
  {
  }

  /** GetAttributes answers with the server's own four and whatever else is stored. */
  lemma GetAttributesEffect(s: Store, q: Request, w: World, id: string, n: string)
    requires q.operation == GetAttributes && q.uniqueId == Some(id)
    ensures var (s', r) := Handle(s, q, w);
            && s' == s
            && (r.Success? <==> id in s.objects && OwnerAllows(s.objects[id], q.caller, q.strict))
            && (r.Success? ==>
                  var o := s.objects[id];
                  && r == Success(Some(id), None, None, r.attributes, [])
                  && Find(r.attributes, "State") == Some(TextValue(StateName(o.state)))
                  && Find(r.attributes, "Object Type") == Some(Enum(TypeCode(o.objectType)))
                  && Find(r.attributes, "Initial Date") == Some(LongInteger(AsInt64(o.created)))
                  && Find(r.attributes, "Last Change Date") == Some(LongInteger(AsInt64(o.modified)))
                  && (n !in ["State", "Object Type", "Initial Date", "Last Change Date"] ==>
                        Find(r.attributes, n) == if IsSynthetic(n) then None else Find(o.attributes, n)))
  {
    hide OwnerAllows, IsSynthetic, StateName, TypeCode, AsInt64;
    if id in s.objects {
      SyntheticNames(s.objects[id]);
    }
  }

  lemma SyntheticNames(o: Object)
    ensures var a := AllAttributes(o);
            && a[STATE] == TextValue(StateName(o.state)) && a[OBJECT_TYPE] == Enum(TypeCode(o.objectType))
            && a[INITIAL_DATE] == LongInteger(AsInt64(o.created)) && a[LAST_CHANGE_DATE] == LongInteger(AsInt64(o.modified))
    ensures TypeOf(TypeCode(o.objectType)) == Some(o.objectType)
  {
    hide IsSynthetic, StateName, AsInt64;
    assert |STATE| == 5 && |OBJECT_TYPE| == 11 && |INITIAL_DATE| == 12 && |LAST_CHANGE_DATE| == 16;
  }

  // ----- Create, Register, DeriveKey --------------------------------------------------------

  /** Attributes of a new object: those asked for, and the caller as owner if none was named. */
  ghost predicate Labelled(asked: string -> Option<Value>, caller: Option<string>, after: Attributes) {
    forall n :: Find(after, n) ==
      if n == OWNER && asked(n).None? && caller.Some? then Some(TextValue(caller.value)) else asked(n)
  }

  /** The first bytes a stream gives. */
  predicate Drawn(stream: Stream, bits: int, m: Option<bytes>) {
    m.Some? && 8 * |m.value| == bits && forall i :: 0 <= i < |m.value| ==> m.value[i] == stream(i)
  }

  /** A new object under this name, and nothing else changed. */
  predicate Born(s: Store, s': Store, id: string, t: ObjectType, wall: nat) {
    && id in s'.objects && s'.floor == Later(s.floor, wall)
    && s'.objects[id] == Object(id, t, PreActive, s'.objects[id].material, s'.objects[id].attributes, s'.floor, s'.floor)
    && s'.objects == s.objects[id := s'.objects[id]]
  }

  /** The key lengths Create takes. */
  predicate GoodLength(algorithm: Option<nat>, bits: int) {
    && bits % 8 == 0 && bits >= 128
    && (algorithm.Some? ==> (algorithm.value == 1 && bits in {128, 192}) || (algorithm.value == 3 && bits in {128, 192, 256}))
  }

  lemma GoodLengthIff(algorithm: Option<nat>, bits: Option<int>)
    ensures CreateFault(algorithm, bits) == None <==> bits.Some? && GoodLength(algorithm, bits.value)
  {
  }

  lemma OwnedLabels(a: seq<Attribute>, caller: Option<string>)
    ensures Labelled(n => LastValue(a, n), caller, Owned(Collect(a), caller))
  {
    hide Collect, LastValue;
    forall n ensures Find(Collect(a), n) == LastValue(a, n) { CollectLast(a, n); }
  }

  lemma MaterialDrawn(stream: Stream, bits: nat)
    requires bits % 8 == 0
    ensures Drawn(stream, bits, Some(Material(stream, bits)))
  {
  }

  lemma CreateEffect(s: Store, q: Request, w: World)
    requires q.operation == Create
    ensures var (s', r) := Handle(s, q, w);
            var id, bits := GeneratedId(s.counter), LastInteger(q.attributes, LENGTH);
            && (r.Success? <==> bits.Some? && GoodLength(LastEnum(q.attributes, ALGORITHM), bits.value) && w.drawn.Some?)
            && (r.Success? ==>
                  && r == Success(Some(id), Some(SymmetricKey), None, map[], []) && Born(s, s', id, SymmetricKey, w.wall)
                  && Drawn(w.drawn.value, bits.value, s'.objects[id].material)
                  && Labelled(n => LastValue(q.attributes, n), q.caller, s'.objects[id].attributes))
            && (!r.Success? ==> s' == s)
  {
    hide GeneratedId, Collect, LastInteger, LastEnum, LastValue, Owned, CreateFault, GoodLength, Material, Labelled, Later, Indexed, Drawn;
    GoodLengthIff(LastEnum(q.attributes, ALGORITHM), LastInteger(q.attributes, LENGTH));
    if Handle(s, q, w).1.Success? {
      var bits := LastInteger(q.attributes, LENGTH).value;
      assert bits % 8 == 0 && bits > 0 by { GoodMeans(LastEnum(q.attributes, ALGORITHM), bits); }
      OwnedLabels(q.attributes, q.caller);
      MaterialDrawn(w.drawn.value, bits);
    }
  }

  lemma GoodMeans(algorithm: Option<nat>, bits: int)
    requires GoodLength(algorithm, bits)
    ensures bits % 8 == 0 && bits > 0
  {
  }

  // What Register makes of its attributes.

  predicate KnownTypes(a: seq<Attribute>) {
    forall i :: 0 <= i < |a| && a[i].name == OBJECT_TYPE && a[i].value.Enum? ==> TypeOf(a[i].value.code).Some?
  }

  function AskedType(a: seq<Attribute>): ObjectType {
    match LastEnum(a, OBJECT_TYPE)
    case Some(code) => if TypeOf(code).Some? then TypeOf(code).value else SymmetricKey
    case None => SymmetricKey
  }

  function AskedMaterial(a: seq<Attribute>): Option<bytes> {
    if a == [] then None
    else if Last(a).name == KEY_MATERIAL && Last(a).value.Bytes? then Some(Last(a).value.data)
    else AskedMaterial(Front(a))
  }

  /** Key material does not become an attribute. */
  function Stored(a: seq<Attribute>, n: string): Option<Value> {
    if n == KEY_MATERIAL then None else LastValue(a, n)
  }

  lemma KnownFront(a: seq<Attribute>)
    requires a != []
    ensures KnownTypes(a) <==>
            KnownTypes(Front(a)) && (Last(a).name == OBJECT_TYPE && Last(a).value.Enum? ==> TypeOf(Last(a).value.code).Some?)
  {
    assert forall i :: 0 <= i < |a| - 1 ==> Front(a)[i] == a[i];
    assert a[|a| - 1] == Last(a);
  }

  lemma {:induction false} ImportMeans(a: seq<Attribute>)
    ensures ReadImport(a).Ok? <==> KnownTypes(a)
    ensures ReadImport(a).Ok? ==>
              && ReadImport(a).value.objectType == AskedType(a) && ReadImport(a).value.material == AskedMaterial(a)
              && forall n :: Find(ReadImport(a).value.attributes, n) == Stored(a, n)
  {
    hide TypeOf, KnownTypes;
    if a == [] {
      assert KnownTypes([]) by { NoTypes(); }
    } else {
      ImportMeans(Front(a));
      KnownFront(a);
      assert OBJECT_TYPE != KEY_MATERIAL by { assert |OBJECT_TYPE| == 11 && |KEY_MATERIAL| == 12; }
      if ReadImport(a).Ok? {
        forall n ensures Find(ReadImport(a).value.attributes, n) == Stored(a, n) {
          assert Find(ReadImport(Front(a)).value.attributes, n) == Stored(Front(a), n);
        }
      }
    }
  }

  lemma NoTypes()
    ensures KnownTypes([])
  {
  }

  lemma RegisterEffect(s: Store, q: Request, w: World, id: string)
    requires q.operation == Register && q.uniqueId == Some(id)
    ensures var (s', r) := Handle(s, q, w);
            && (r.Success? <==> id !in s.objects && KnownTypes(q.attributes))
            && (r.Success? ==>
                  && r == Success(Some(id), Some(AskedType(q.attributes)), None, map[], [])
                  && Born(s, s', id, AskedType(q.attributes), w.wall)
                  && s'.objects[id].material == AskedMaterial(q.attributes)
                  && Labelled(n => Stored(q.attributes, n), q.caller, s'.objects[id].attributes))
            && s'.objects.Keys == s.objects.Keys + (if r.Success? then {id} else {})
  {
    hide ReadImport, OwnerAllows, KnownTypes, AskedType, AskedMaterial, LastValue, Later;
    ImportMeans(q.attributes);
    if ReadImport(q.attributes).Ok? {
      var i := ReadImport(q.attributes).value;
      assert Labelled(n => Stored(q.attributes, n), q.caller, Owned(i.attributes, q.caller));
    }
  }

  lemma DeriveEffect(s: Store, q: Request, w: World, id: string)
    requires q.operation == DeriveKey && q.uniqueId == Some(id)
    ensures var (s', r) := Handle(s, q, w);
            var new_, bits := GeneratedId(s.counter), LastInteger(q.attributes, LENGTH);
            && (r.Success? <==>
                  && bits.Some? && 0 < bits.value <= 8192 && bits.value % 8 == 0
                  && id in s.objects && s.objects[id].state != Destroyed && OwnerAllows(s.objects[id], q.caller, q.strict)
                  && s.objects[id].material.Some? && s.objects[id].material.value != []
                  && Expanded(q, s.objects[id].material.value, w).Some?)
            && (r.Success? ==>
                  && r == Success(Some(new_), Some(SymmetricKey), None, map[], []) && Born(s, s', new_, SymmetricKey, w.wall)
                  && Drawn(Expanded(q, s.objects[id].material.value, w).value, bits.value, s'.objects[new_].material)
                  && Labelled(n => DerivedLabels(id, bits.value, n), q.caller, s'.objects[new_].attributes))
            && (!r.Success? ==> s' == s)
  {
    hide GeneratedId, LastInteger, LastBytes, OwnerAllows, Expanded, Material, Later, Indexed, Drawn, Labelled, Derived;
    if Handle(s, q, w).1.Success? {
      var bits := LastInteger(q.attributes, LENGTH).value;
      MaterialDrawn(Expanded(q, s.objects[id].material.value, w).value, bits);
      DerivedMeans(id, bits, q.caller);
    }
  }

  function DerivedLabels(id: string, bits: int, n: string): Option<Value> {
    if n == "Cryptographic Length" then Some(Integer(bits))
    else if n == "Derived From" then Some(TextValue(id))
    else None
  }

  lemma DerivedMeans(id: string, bits: int, caller: Option<string>)
    ensures Labelled(n => DerivedLabels(id, bits, n), caller, Derived(id, bits, caller))
  {
    assert |OWNER| == 5 && |LENGTH| == 20 && |DERIVED_FROM| == 12;
  }

  // ----- Get, over runs -----------------------------------------------------------------------

  lemma OwnerKept(o: Object, o': Object, caller: Option<string>, strict: bool)
    requires SameFixed(o, o')
    ensures OwnerAllows(o', caller, strict) == OwnerAllows(o, caller, strict)
  {
    hide Lower;
    assert IsImmutable(OWNER);
    assert Find(o'.attributes, OWNER) == Find(o.attributes, OWNER);
  }

  /** Whatever happens meanwhile, Get answers with the type and material the object had at the
      start, to those whom its owner attribute allowed at the start, exactly until it is destroyed. */
  lemma GetReturns(s: Store, steps: seq<Step>, id: string, g: Request, w: World)
    requires Sound(s) && id in s.objects && Safe(id, s.counter) && s.counter + |steps| <= U64_LIMIT
    requires g.operation == Get && g.uniqueId == Some(id)
    ensures var t, o := After(s, steps), s.objects[id];
            && id in t.objects
            && Handle(t, g, w) ==
               (t, if t.objects[id].state == Destroyed then DESTROYED
                   else if OwnerAllows(o, g.caller, g.strict) then Success(Some(id), Some(o.objectType), o.material, map[], [])
                   else MISSING)
  {
    hide After, Moves, GeneratedId, OwnerAllows, Sound, SameFixed, Reaches;
    ObjectLaw(s, steps, id);
    RunSound(s, steps);
    var t := After(s, steps);
    OwnerKept(s.objects[id], t.objects[id], g.caller, g.strict);
    assert SoundObject(id, t.objects[id], t.floor) by { SoundAt(t, id); }
    FixedParts(s.objects[id], t.objects[id]);
  }

  lemma SoundAt(s: Store, id: string)
    requires Sound(s) && id in s.objects
    ensures SoundObject(id, s.objects[id], s.floor)
  {
  }

  lemma FixedParts(o: Object, o': Object)
    requires SameFixed(o, o')
    ensures o'.objectType == o.objectType
  {
  }

  /** Where the material of a new object comes from: the generator, the request, or the key
      derivation. */
  predicate MadeFrom(s: Store, q: Request, w: World, m: Option<bytes>) {
    var bits := LastInteger(q.attributes, LENGTH);
    if q.operation == Register then m == AskedMaterial(q.attributes)
    else if q.operation == Create then bits.Some? && w.drawn.Some? && Drawn(w.drawn.value, bits.value, m)
    else
      && bits.Some? && q.uniqueId.Some? && q.uniqueId.value in s.objects && s.objects[q.uniqueId.value].material.Some?
      && var stream := Expanded(q, s.objects[q.uniqueId.value].material.value, w);
         stream.Some? && Drawn(stream.value, bits.value, m)
  }

  /** A key that was created, imported or derived is what Get answers with. */
  lemma GetAfterMaking(s: Store, q: Request, w: World, steps: seq<Step>, g: Request, w': World)
    requires Sound(s) && s.counter + 1 < U64_LIMIT && s.counter + 1 + |steps| <= U64_LIMIT && Handle(s, q, w).1.Success?
    requires Creating(q) || (q.operation == Register && q.uniqueId.Some? && Safe(q.uniqueId.value, s.counter))
    requires g.operation == Get && g.uniqueId == Handle(s, q, w).1.id
    ensures g.uniqueId.Some?
    ensures var s1, id := Handle(s, q, w).0, g.uniqueId.value;
            var t := After(s1, steps);
            && id in s1.objects && id in t.objects && MadeFrom(s, q, w, s1.objects[id].material)
            && Handle(t, g, w').1 ==
               if t.objects[id].state == Destroyed then DESTROYED
               else if OwnerAllows(s1.objects[id], g.caller, g.strict)
               then Success(Some(id), Handle(s, q, w).1.objectType, s1.objects[id].material, map[], [])
               else MISSING
  {
    hide Handle, After, GeneratedId, OwnerAllows, Sound, Safe, MadeFrom;
    StepSound(s, q, w);
    Making(s, q, w);
    BornSafe(s, q, w);
    GetReturns(Handle(s, q, w).0, steps, g.uniqueId.value, g, w');
  }

  lemma Making(s: Store, q: Request, w: World)
    requires Handle(s, q, w).1.Success? && (Creating(q) || (q.operation == Register && q.uniqueId.Some?))
    ensures var (s1, r) := Handle(s, q, w);
            && r.id == (if Creating(q) then Some(GeneratedId(s.counter)) else q.uniqueId)
            && r.id.value in s1.objects && r.objectType == Some(s1.objects[r.id.value].objectType)
            && MadeFrom(s, q, w, s1.objects[r.id.value].material)
  {
    hide Handle, GeneratedId, OwnerAllows, Drawn, AskedMaterial, AskedType, LastInteger, LastEnum, LastValue, Labelled,
         KnownTypes, GoodLength, Later, Expanded;
    if q.operation == Create {
      CreateEffect(s, q, w);
    } else if q.operation == Register {
      RegisterEffect(s, q, w, q.uniqueId.value);
    } else {
      assert q.uniqueId.Some? by { DeriveNamed(s, q, w); }
      DeriveEffect(s, q, w, q.uniqueId.value);
    }
  }

  lemma DeriveNamed(s: Store, q: Request, w: World)
    requires q.operation == DeriveKey && Handle(s, q, w).1.Success?
    ensures q.uniqueId.Some?
  {
    hide HandleDerive;
  }

  lemma BornSafe(s: Store, q: Request, w: World)
    requires Sound(s) && s.counter + 1 < U64_LIMIT && Handle(s, q, w).1.Success? && Handle(s, q, w).1.id.Some?
    requires Creating(q) || (q.operation == Register && q.uniqueId.Some? && Safe(q.uniqueId.value, s.counter))
    requires Handle(s, q, w).1.id.value == if Creating(q) then GeneratedId(s.counter) else q.uniqueId.value
    ensures Safe(Handle(s, q, w).1.id.value, Handle(s, q, w).0.counter)
    ensures Handle(s, q, w).0.counter <= s.counter + 1
  {
    hide Handle, GeneratedId, Sound;
    StepCounter(s, q, w);
    var (s1, r) := Handle(s, q, w);
    if Creating(q) {
      assert s1.counter == s.counter + 1 by { MadeLength(s, q, w); }
      forall m: nat | s1.counter <= m < U64_LIMIT ensures r.id.value != GeneratedId(m) {
        if r.id.value == GeneratedId(m) {
          GeneratedInjective(s.counter, m);
        }
      }
    }
  }

  // ----- refusals -----------------------------------------------------------------------------

  /** The first name at fault decides. */
  lemma {:induction false} FirstFaultIs(fault: string -> Option<Fault>, a: seq<Attribute>, f: Fault)
    ensures FirstFault(fault, a) == Some(f) <==>
            exists i :: 0 <= i < |a| && fault(a[i].name) == Some(f) && forall j :: 0 <= j < i ==> fault(a[j].name) == None
  {
    if a != [] {
      var front := Front(a);
      FirstFaultIs(fault, front, f);
      assert forall i :: 0 <= i < |front| ==> front[i] == a[i];
      assert a[|a| - 1] == Last(a);
      FaultFree(fault, front);
      if FirstFault(fault, front) == None {
        forall i | 0 <= i < |front| ensures fault(a[i].name) == None {
          assert front[i].name in Names(front);
        }
      } else {
        FirstFaultIs(fault, front, FirstFault(fault, front).value);
      }
    }
  }

  predicate IsMove(op: Operation) {
    op == Activate || op == Revoke || op == Destroy
  }

  predicate IsEdit(op: Operation) {
    op == AddAttribute || op == ModifyAttribute || op == DeleteAttribute
  }

  /** What a caller whom the owner rule keeps out is told under the object's name, and that the
      store stays as it is. The moves do not know the strict mode. */
  lemma KeptOut(s: Store, q: Request, w: World, id: string)
    requires id in s.objects && q.uniqueId == Some(id) && q.operation !in {Create, Locate, Other}
    requires !OwnerAllows(s.objects[id], q.caller, if IsMove(q.operation) then false else q.strict)
    ensures var (s', r) := Handle(s, q, w);
            && s' == s
            && r == if q.operation in {Get, Check} && s.objects[id].state == Destroyed then DESTROYED
                    else if IsEdit(q.operation) && q.attributes == [] then Failure(Fault(InvalidField, NeedsAttributes(q.operation)))
                    else if q.operation == DeriveKey && !DeriveLength(LastInteger(q.attributes, LENGTH))
                    then Failure(Fault(InvalidField, DeriveBadLength))
                    else if q.operation == DeriveKey && s.objects[id].state == Destroyed
                    then Failure(Fault(ObjectNotFound, DeriveInputMissing))
                    else MISSING
  {
    hide OwnerAllows, LastInteger, DeriveLength;
  }

  /** Whom the owner rule keeps out: everyone but the owner named in text; where none is named,
      known callers in strict mode only. */
  lemma OwnerRule(o: Object, caller: Option<string>, strict: bool, owner: string)
    ensures OWNER in o.attributes && o.attributes[OWNER] == TextValue(owner) ==> (OwnerAllows(o, caller, strict) <==> caller == Some(owner))
    ensures (OWNER !in o.attributes || !o.attributes[OWNER].TextValue?) ==> (OwnerAllows(o, caller, strict) <==> !strict || caller.None?)
  {
  }

  // ----- the type index -----------------------------------------------------------------------

  predicate InIndex(s: Store, id: string) {
    SymmetricKey in s.index && id in s.index[SymmetricKey]
  }

  /** The index lists exactly the live created keys. */
  ghost predicate IndexOk(s: Store) {
    && (forall t :: t in s.index ==> t == SymmetricKey)
    && (forall id :: id in s.objects && IsGenerated(id) ==> s.objects[id].objectType == SymmetricKey)
    && (forall id :: InIndex(s, id) <==> id in s.objects && IsGenerated(id) && s.objects[id].state != Destroyed)
  }

  lemma IndexEffect(s: Store, q: Request, w: World)
    ensures var (s', r) := Handle(s, q, w);
            s'.index == if Creating(q) && r.Success? then Indexed(s.index, SymmetricKey, GeneratedId(s.counter))
                        else if q.operation == Destroy && q.uniqueId.Some? && r.Success? && q.uniqueId.value in s.objects
                        then Unindexed(s.index, s.objects[q.uniqueId.value].objectType, q.uniqueId.value)
                        else s.index
  {
    hide GeneratedId, Indexed, Unindexed, OwnerAllows, FirstFault, AddFault, ChangeFault, Collect, Names, OddBlank, ReadImport,
         LastInteger, LastEnum, LastBytes, Owned, Derived, CreateFault, DeriveLength, Material, AllAttributes, UsageLeft, Later;
  }

  /** Every object and its state, but for the named one, stays; so does the named one's, unless
      this is one of the three moves. */
  lemma OthersKeepState(s: Store, q: Request, w: World)
    requires Sound(s) && !Creating(q) && q.operation != Register
    requires q.operation != Activate && q.operation != Revoke && q.operation != Destroy
    ensures var s' := Handle(s, q, w).0;
            s'.objects.Keys == s.objects.Keys &&
            forall k :: k in s.objects ==> s'.objects[k].state == s.objects[k].state && s'.objects[k].objectType == s.objects[k].objectType
  {
    hide Handle, OwnerAllows, Addable, SetTo, Names, IsImmutable, Later, UsageOf;
    if q.uniqueId.None? || q.operation in {Get, GetAttributes, Locate, Other} {
      ReadsOnly(s, q, w);
    } else {
      var id := q.uniqueId.value;
      match q.operation {
        case Check => CheckEffect(s, q, w, id);
        case AddAttribute => AddEffect(s, q, w, id);
        case ModifyAttribute => ModifyEffect(s, q, w, id);
        case DeleteAttribute => DeleteEffect(s, q, w, id);
      }
    }
  }

  lemma ReadsOnly(s: Store, q: Request, w: World)
    requires q.operation != Create && (q.uniqueId.None? || q.operation in {Get, GetAttributes, Locate, Other})
    ensures Handle(s, q, w).0 == s
  {
  }

  lemma IndexStep(s: Store, q: Request, w: World)
    requires Sound(s) && AllSafe(s) && IndexOk(s) && s.counter + 1 < U64_LIMIT
    requires q.operation == Register && q.uniqueId.Some? ==> !IsGenerated(q.uniqueId.value)
    ensures IndexOk(Handle(s, q, w).0)
  {
    hide Handle, GeneratedId, Sound, Labelled, Drawn, KnownTypes, AskedType, AskedMaterial, LastInteger, LastEnum, LastValue,
         OwnerAllows, GoodLength, Expanded, Later;
    var (s', r) := Handle(s, q, w);
    IndexEffect(s, q, w);
    if q.operation == Create {
      CreateEffect(s, q, w);
      assert IsGenerated(GeneratedId(s.counter));
    } else if q.operation == DeriveKey {
      if r.Success? {
        DeriveNamed(s, q, w);
      } else {
        DeriveFails(s, q, w);
      }
      if q.uniqueId.Some? {
        DeriveEffect(s, q, w, q.uniqueId.value);
      }
      assert IsGenerated(GeneratedId(s.counter));
    } else if q.uniqueId.None? {
      ReadsOnly(s, q, w);
    } else if q.operation == Register {
      RegisterIndex(s, q, w, q.uniqueId.value);
    } else if q.operation == Activate {
      MoveEffect(s, q, w, q.uniqueId.value, Active);
    } else if q.operation == Revoke {
      MoveEffect(s, q, w, q.uniqueId.value, Deactivated);
    } else if q.operation == Destroy {
      MoveIndex(s, q, w, q.uniqueId.value);
    } else {
      OthersKeepState(s, q, w);
    }
  }

  lemma DeriveFails(s: Store, q: Request, w: World)
    requires q.operation == DeriveKey && !Handle(s, q, w).1.Success?
    ensures Handle(s, q, w).0 == s
  {
    hide Created, OwnerAllows, LastInteger, Expanded;
  }

  lemma RegisterIndex(s: Store, q: Request, w: World, id: string)
    requires IndexOk(s) && q.operation == Register && q.uniqueId == Some(id) && !IsGenerated(id)
    requires Handle(s, q, w).0.index == s.index
    ensures IndexOk(Handle(s, q, w).0)
  {
    hide Handle, Labelled, KnownTypes, AskedType, AskedMaterial, IsGenerated, Later;
    RegisterEffect(s, q, w, id);
    RegisterKeeps(s, q, w, id);
  }

  lemma RegisterKeeps(s: Store, q: Request, w: World, id: string)
    requires q.operation == Register && q.uniqueId == Some(id)
    ensures forall k :: k in s.objects ==> k in Handle(s, q, w).0.objects && Handle(s, q, w).0.objects[k] == s.objects[k]
  {
    hide ReadImport, OwnerAllows, Owned, Later;
  }

  lemma MoveIndex(s: Store, q: Request, w: World, id: string)
    requires IndexOk(s) && q.operation == Destroy && q.uniqueId == Some(id)
    requires Handle(s, q, w).1.Success? && id in s.objects ==> Handle(s, q, w).0.index == Unindexed(s.index, s.objects[id].objectType, id)
    ensures IndexOk(Handle(s, q, w).0)
  {
    hide Handle, IsGenerated, OwnerAllows, Later;
    MoveEffect(s, q, w, id, Destroyed);
  }

  /** In every clean run the type index lists exactly the live created keys, and no other type. */
  lemma {:induction false} RunIndex(steps: seq<Step>)
    requires Clean(steps) && |steps| + 1 < U64_LIMIT
    ensures IndexOk(After(New(), steps))
  {
    hide Handle, Sound, IsGenerated, AllSafe, IndexOk;
    if steps == [] {
      assert IndexOk(New()) by { NewIndex(); }
    } else {
      var b := Front(steps);
      assert Clean(b) by {
        assert forall i :: 0 <= i < |b| ==> b[i] == steps[i];
      }
      RunIndex(b);
      RunSafe(b);
      assert Sound(New()) by { NewSound(); }
      RunSound(New(), b);
      RunCounter(New(), b);
      assert steps[|steps| - 1] == Last(steps);
      IndexStep(After(New(), b), Last(steps).request, Last(steps).world);
    }
  }

  lemma NewIndex()
    ensures IndexOk(New())
  {
  }

  /** So in clean runs Locate by type finds, for symmetric keys, exactly the live created ones
      that match otherwise and that the caller may see, and nothing of any other type. */
  lemma LocateByType(steps: seq<Step>, q: Request, w: World, t: ObjectType, id: string)
    requires Clean(steps) && |steps| + 1 < U64_LIMIT && FilterType(Collect(q.attributes)) == Some(t)
    ensures var s, f := After(New(), steps), Collect(q.attributes);
            Listed(s, f, q.caller, id) <==>
            && t == SymmetricKey && id in s.objects && IsGenerated(id) && s.objects[id].state != Destroyed
            && (forall n :: n in f && n != OBJECT_TYPE ==> Find(s.objects[id].attributes, n) == Some(f[n]))
            && OwnerAllows(s.objects[id], q.caller, false)
  {
    hide Collect, After, OwnerAllows, IsGenerated, Find;
    RunIndex(steps);
    var s := After(New(), steps);
    assert InIndex(s, id) <==> id in s.objects && IsGenerated(id) && s.objects[id].state != Destroyed;
  }
}
