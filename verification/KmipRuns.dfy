/** Objects over whole runs: their lifecycle, what never changes, and who can change them. */
module KmipRuns {
  import opened Wrappers
  import opened Text
  import opened KmipModel

  datatype Step = Step(request: Request, world: World)

  function After(s: Store, steps: seq<Step>): Store {
    if steps == [] then s
    else Handle(After(s, Front(steps)), Last(steps).request, Last(steps).world).0
  }

  // ----- identifiers ------------------------------------------------------------------

  predicate IsHexDigits(s: string) {
    forall i :: 0 <= i < |s| ==> '0' <= s[i] <= '9' || 'a' <= s[i] <= 'f'
  }

  function DigitValue(c: char): nat
    requires '0' <= c <= '9' || 'a' <= c <= 'f'
  {
    if c <= '9' then c as int - 48 else c as int - 87
  }

  function HexValue(s: string): nat
    requires IsHexDigits(s)
  {
    if s == "" then 0 else 16 * HexValue(Front(s)) + DigitValue(Last(s))
  }

  lemma {:induction false} HexNatValue(n: nat)
    ensures IsHexDigits(HexNat(n)) && HexValue(HexNat(n)) == n
  {
    if n < 16 {
      assert Front([HexDigit(n)]) == "";
    } else {
      HexNatValue(n / 16);
      assert Front(HexNat(n)) == HexNat(n / 16);
    }
  }

  lemma {:induction false} ZerosValue(k: nat, s: string)
    requires IsHexDigits(s)
    ensures IsHexDigits(seq(k, _ => '0') + s) && HexValue(seq(k, _ => '0') + s) == HexValue(s)
    decreases |s|, k
  {
    var t := seq(k, _ => '0') + s;
    if s != "" {
      ZerosValue(k, Front(s));
      assert Front(t) == seq(k, _ => '0') + Front(s);
    } else if k > 0 {
      ZerosValue(k - 1, s);
      assert Front(t) == seq(k - 1, _ => '0') + s;
    } else {
      assert t == s;
    }
  }

  /** Different numbers give different identifiers. */
  lemma GeneratedInjective(m: nat, n: nat)
    requires GeneratedId(m) == GeneratedId(n)
    ensures m == n
  {
    IdValue(m);
    IdValue(n);
  }

  /** An identifier is `kmip-` and at least eight hexadecimal digits of its number. */
  lemma IdValue(n: nat)
    ensures |GeneratedId(n)| >= 13 && GeneratedId(n)[..5] == "kmip-"
    ensures IsHexDigits(GeneratedId(n)[5..]) && HexValue(GeneratedId(n)[5..]) == n
  {
    hide HexNat, HexValue;
    HexNatValue(n);
    var digits := HexNat(n);
    var pad := if |digits| < 8 then 8 - |digits| else 0;
    ZerosValue(pad, digits);
    assert GeneratedId(n)[5..] == Padded(n, 8) == seq(pad, _ => '0') + digits;
  }

  /** No creation to come will use this identifier. */
  ghost predicate Safe(id: string, counter: nat) {
    forall m: nat :: counter <= m < U64_LIMIT ==> id != GeneratedId(m)
  }

  // ----- one object, one step -------------------------------------------------------------

  ghost predicate SameFixed(o: Object, o': Object) {
    o'.id == o.id && o'.objectType == o.objectType && o'.created == o.created &&
    forall n :: IsImmutable(n) ==> Find(o'.attributes, n) == Find(o.attributes, n)
  }

  predicate SameMaterial(o: Object, o': Object) {
    o'.material == if o'.state == Destroyed then None else o.material
  }

  /** One step of an object: along one edge of the lifecycle, or none. */
  ghost predicate Moves(o: Object, o': Object) {
    (o'.state == o.state || AllowedTransition(o.state, o'.state)) &&
    SameFixed(o, o') && SameMaterial(o, o') && o.modified <= o'.modified
  }

  predicate SoundObject(id: string, o: Object, floor: nat) {
    o.id == id && o.created <= o.modified <= floor && o.state != Compromised &&
    (o.state == Destroyed ==> o.material == None)
  }

  predicate Sound(s: Store) {
    forall id :: id in s.objects ==> SoundObject(id, s.objects[id], s.floor)
  }

  /** What a change made to one named object may do to the store. */
  ghost predicate Touches(s: Store, s': Store, id: string) {
    s'.counter == s.counter && s.floor <= s'.floor && s'.objects.Keys == s.objects.Keys &&
    (forall k :: k in s.objects && k != id ==> s'.objects[k] == s.objects[k]) &&
    (id in s.objects ==> Moves(s.objects[id], s'.objects[id]) && SoundObject(id, s'.objects[id], s'.floor))
  }

  /** What adding an object may do: everything else stays. */
  ghost predicate Adds(s: Store, s': Store, id: string) {
    s.floor <= s'.floor && s'.objects.Keys == s.objects.Keys + {id} &&
    (forall k :: k in s.objects && k != id ==> s'.objects[k] == s.objects[k]) &&
    SoundObject(id, s'.objects[id], s'.floor)
  }

  lemma SameTouches(s: Store, id: string)
    requires Sound(s)
    ensures Touches(s, s, id)
  {
  }

  lemma MovedTouches(s: Store, id: string, to: State, wall: nat)
    requires Sound(s) && to != Compromised
    ensures Touches(s, Moved(s, id, to, wall), id)
  {
    hide IsImmutable;
    assert id in s.objects ==> SoundObject(id, s.objects[id], s.floor);
  }

  lemma EditTouches(s: Store, id: string, a: Attributes, wall: nat)
    requires Sound(s) && id in s.objects
    requires forall n :: IsImmutable(n) ==> Find(a, n) == Find(s.objects[id].attributes, n)
    ensures Touches(s, WithAttributes(s, id, a, wall), id)
  {
    hide IsImmutable, Find;
    assert SoundObject(id, s.objects[id], s.floor);
  }

  lemma UsageIsMutable()
    ensures !IsImmutable(USAGE_COUNTER)
  {
    var l := Lower(USAGE_COUNTER);
    assert |l| == 34;
    assert |Lower(OWNER)| == 5 && |Lower(ALGORITHM)| == 23 && |Lower(LENGTH)| == 20;
    assert |Lower(OBJECT_TYPE)| == 11 && |Lower(KEY_MATERIAL)| == 12;
  }

  lemma UsedTouches(s: Store, id: string, wall: nat)
    requires Sound(s)
    ensures Touches(s, Used(s, id, wall), id)
  {
    hide IsImmutable, UsageLeft;
    UsageIsMutable();
    if id in s.objects && UsageLeft(s.objects[id].attributes).Some? {
      var a := s.objects[id].attributes;
      EditTouches(s, id, a[USAGE_COUNTER := LongInteger(UsageLeft(a).value)], wall);
    } else {
      SameTouches(s, id);
    }
  }

  /** Faults keep immutable names out of the request. */
  lemma {:induction false} NoImmutable(fault: string -> Option<Fault>, a: seq<Attribute>, n: string)
    requires forall k :: IsImmutable(k) ==> fault(k).Some?
    requires FirstFault(fault, a) == None && IsImmutable(n)
    ensures n !in Collect(a) && n !in Names(a)
  {
    hide IsImmutable;
    if a != [] {
      NoImmutable(fault, Front(a), n);
      forall i | 0 <= i < |a| ensures a[i].name != n {
        if i < |a| - 1 {
          assert Front(a)[i].name in Names(Front(a));
        }
      }
    }
  }

  lemma AddTouches(s: Store, id: string, q: Request, w: World)
    requires Sound(s)
    ensures Touches(s, HandleAdd(s, id, q, w).0, id)
  {
    hide IsImmutable, FirstFault, Collect, Names, OddBlank, PaddedName, Collides;
    if HandleAdd(s, id, q, w).0 == s {
      SameTouches(s, id);
    } else {
      var a := s.objects[id].attributes;
      var f := name => AddFault(a, name);
      forall n | IsImmutable(n) ensures n !in Collect(q.attributes) {
        NoImmutable(f, q.attributes, n);
      }
      EditTouches(s, id, a + Collect(q.attributes), w.wall);
    }
  }

  lemma ModifyTouches(s: Store, id: string, q: Request, w: World)
    requires Sound(s)
    ensures Touches(s, HandleModify(s, id, q, w).0, id)
  {
    hide IsImmutable, FirstFault, Collect, Names;
    if HandleModify(s, id, q, w).0 == s {
      SameTouches(s, id);
    } else {
      var a := s.objects[id].attributes;
      var f := name => ChangeFault(q.operation, a, name);
      forall n | IsImmutable(n) ensures n !in Collect(q.attributes) {
        NoImmutable(f, q.attributes, n);
      }
      EditTouches(s, id, a + Collect(q.attributes), w.wall);
    }
  }

  lemma DeleteTouches(s: Store, id: string, q: Request, w: World)
    requires Sound(s)
    ensures Touches(s, HandleDelete(s, id, q, w).0, id)
  {
    hide IsImmutable, FirstFault, Collect, Names;
    if HandleDelete(s, id, q, w).0 == s {
      SameTouches(s, id);
    } else {
      var a := s.objects[id].attributes;
      var f := name => ChangeFault(q.operation, a, name);
      forall n | IsImmutable(n) ensures n !in Names(q.attributes) {
        NoImmutable(f, q.attributes, n);
      }
      EditTouches(s, id, a - Names(q.attributes), w.wall);
    }
  }

  // ----- one step of the store --------------------------------------------------------

  predicate Creating(q: Request) {
    q.operation == Create || q.operation == DeriveKey
  }

  /** Every request leaves the store alone, changes the object it names along the rules, or
      adds one: under the name asked for if it is free, or under the next generated name. */
  ghost predicate Lawful(s: Store, s': Store, q: Request) {
    || s' == s
    || (q.uniqueId.Some? && Touches(s, s', q.uniqueId.value))
    || (q.operation == Register && q.uniqueId.Some? && q.uniqueId.value !in s.objects &&
        s'.counter == s.counter && Adds(s, s', q.uniqueId.value))
    || (Creating(q) && s'.counter == (s.counter + 1) % U64_LIMIT && Adds(s, s', GeneratedId(s.counter)))
  }

  lemma CreatedAdds(s: Store, m: bytes, a: Attributes, wall: nat)
    ensures Adds(s, Created(s, m, a, wall), GeneratedId(s.counter))
    ensures Created(s, m, a, wall).counter == (s.counter + 1) % U64_LIMIT
  {
    hide GeneratedId;
  }

  lemma RegisteredAdds(s: Store, id: string, t: ObjectType, m: Option<bytes>, a: Attributes, wall: nat)
    requires Sound(s)
    ensures id !in s.objects ==> Adds(s, Registered(s, id, t, m, a, wall), id)
    ensures id in s.objects ==> Touches(s, Registered(s, id, t, m, a, wall), id)
    ensures Registered(s, id, t, m, a, wall).counter == s.counter
  {
    hide IsImmutable;
    assert id in s.objects ==> SoundObject(id, s.objects[id], s.floor);
  }

  lemma StepLawful(s: Store, q: Request, w: World)
    requires Sound(s)
    ensures Lawful(s, Handle(s, q, w).0, q)
  {
    hide HandleAdd, HandleModify, HandleDelete, Touches, Adds, Moved, Used, Created, Registered, ReadImport,
         LastInteger, LastEnum, LastBytes, Collect, Owned, Derived, GeneratedId, OwnerAllows, MoveFault, UsageLeft,
         CreateFault, DeriveLength, Material, Found, Seen, AllAttributes;
    if Creating(q) {
      forall m, a { CreatedAdds(s, m, a, w.wall); }
    } else if q.uniqueId.Some? {
      var id := q.uniqueId.value;
      match q.operation {
        case Activate => MovedTouches(s, id, Active, w.wall);
        case Revoke => MovedTouches(s, id, Deactivated, w.wall);
        case Destroy => MovedTouches(s, id, Destroyed, w.wall);
        case Check => CheckTouches(s, id, q, w);
        case AddAttribute => AddTouches(s, id, q, w);
        case ModifyAttribute => ModifyTouches(s, id, q, w);
        case DeleteAttribute => DeleteTouches(s, id, q, w);
        case Register => forall t, m, a { RegisteredAdds(s, id, t, m, a, w.wall); }
        case _ =>
      }
    }
  }

  lemma CheckTouches(s: Store, id: string, q: Request, w: World)
    requires Sound(s)
    ensures HandleCheck(s, id, q, w).0 == s || HandleCheck(s, id, q, w).0 == Used(s, id, w.wall)
    ensures Touches(s, Used(s, id, w.wall), id)
  {
    hide Touches, Used, UsageLeft, OwnerAllows;
    UsedTouches(s, id, w.wall);
    assert id in s.objects ==> SoundObject(id, s.objects[id], s.floor);
  }

  lemma StepSound(s: Store, q: Request, w: World)
    requires Sound(s)
    ensures Sound(Handle(s, q, w).0) && s.floor <= Handle(s, q, w).0.floor
  {
    hide Handle, Moves;
    StepLawful(s, q, w);
    var s' := Handle(s, q, w).0;
    forall k | k in s'.objects ensures SoundObject(k, s'.objects[k], s'.floor) {
      assert k in s.objects ==> SoundObject(k, s.objects[k], s.floor);
    }
  }

  /** An object no creation will overwrite makes at most one move. */
  lemma StepMoves(s: Store, q: Request, w: World, id: string)
    requires Sound(s) && id in s.objects && (Creating(q) ==> id != GeneratedId(s.counter))
    ensures id in Handle(s, q, w).0.objects && Moves(s.objects[id], Handle(s, q, w).0.objects[id])
  {
    hide Handle, Moves, GeneratedId;
    StepLawful(s, q, w);
    SameMoves(id, s.objects[id], s.floor);
  }

  lemma SameMoves(id: string, o: Object, floor: nat)
    requires SoundObject(id, o, floor)
    ensures Moves(o, o)
  {
  }

  // ----- runs -----------------------------------------------------------------------------

  lemma {:induction false} RunSound(s: Store, steps: seq<Step>)
    requires Sound(s)
    ensures Sound(After(s, steps)) && s.floor <= After(s, steps).floor
  {
    hide Handle, Sound;
    if steps != [] {
      RunSound(s, Front(steps));
      StepSound(After(s, Front(steps)), Last(steps).request, Last(steps).world);
    }
  }

  lemma {:induction false} RunCounter(s: Store, steps: seq<Step>)
    requires Sound(s) && s.counter + |steps| < U64_LIMIT
    ensures s.counter <= After(s, steps).counter <= s.counter + |steps|
  {
    hide Handle, Sound, GeneratedId, Adds, Touches;
    if steps != [] {
      RunCounter(s, Front(steps));
      RunSound(s, Front(steps));
      var b := After(s, Front(steps));
      StepLawful(b, Last(steps).request, Last(steps).world);
      assert Handle(b, Last(steps).request, Last(steps).world).0.counter in [b.counter, b.counter + 1] by {
        StepCounter(b, Last(steps).request, Last(steps).world);
      }
    }
  }

  lemma StepCounter(s: Store, q: Request, w: World)
    requires Sound(s)
    ensures Handle(s, q, w).0.counter == s.counter ||
            (Creating(q) && Handle(s, q, w).0.counter == (s.counter + 1) % U64_LIMIT)
  {
    hide Handle, Moves, GeneratedId, Adds;
    StepLawful(s, q, w);
  }

  predicate Reaches(from: State, to: State) {
    from == to || AllowedTransition(from, to) ||
    (from == PreActive && to == Deactivated) || (from == Active && to == Destroyed)
  }

  /** What a run does to an object: along the lifecycle; the identifier, type, creation time
      and immutable attributes (the owner among them) stay; so does the key material until it
      is destroyed. */
  ghost predicate Kept(o: Object, o': Object) {
    Reaches(o.state, o'.state) && SameFixed(o, o') && SameMaterial(o, o') && o.modified <= o'.modified
  }

  lemma KeptMoves(o: Object, o': Object, o'': Object)
    requires Kept(o, o') && Moves(o', o'')
    ensures Kept(o, o'')
  {
    hide IsImmutable, Find;
  }

  /** From any sound store, for any run of any requests by anyone: an object whose name no
      creation to come will use is there to the end, and each step of it is lawful. */
  lemma {:induction false} ObjectLaw(s: Store, steps: seq<Step>, id: string)
    requires Sound(s) && id in s.objects && Safe(id, s.counter) && s.counter + |steps| <= U64_LIMIT
    ensures id in After(s, steps).objects && Kept(s.objects[id], After(s, steps).objects[id])
    ensures steps != [] ==>
              id in After(s, Front(steps)).objects &&
              Moves(After(s, Front(steps)).objects[id], After(s, steps).objects[id])
  {
    hide Handle, Sound, Kept, Moves, GeneratedId;
    if steps == [] {
      assert Kept(s.objects[id], s.objects[id]) by { KeptSelf(s, id); }
    } else {
      var b, last := After(s, Front(steps)), Last(steps);
      ObjectLaw(s, Front(steps), id);
      RunSound(s, Front(steps));
      RunCounter(s, Front(steps));
      StepMoves(b, last.request, last.world, id);
      KeptMoves(s.objects[id], b.objects[id], After(s, steps).objects[id]);
    }
  }

  lemma KeptSelf(s: Store, id: string)
    requires Sound(s) && id in s.objects
    ensures Kept(s.objects[id], s.objects[id])
  {
    assert SoundObject(id, s.objects[id], s.floor);
  }

  /** A key made or derived has the length asked for, for as long as it is live. */
  lemma MaterialLength(s: Store, q: Request, w: World, steps: seq<Step>)
    requires Sound(s) && Creating(q) && Handle(s, q, w).1.Success? && s.counter + 1 < U64_LIMIT && s.counter + 1 + |steps| <= U64_LIMIT
    ensures var id, t := GeneratedId(s.counter), After(Handle(s, q, w).0, steps);
            && Handle(s, q, w).1.id == Some(id) && id in t.objects && LastInteger(q.attributes, LENGTH).Some?
            && (t.objects[id].state != Destroyed ==>
                  t.objects[id].material.Some? &&
                  8 * |t.objects[id].material.value| == LastInteger(q.attributes, LENGTH).value)
  {
    hide After, Kept, Moves, GeneratedId, Sound;
    var s', id := Handle(s, q, w).0, GeneratedId(s.counter);
    assert Sound(s') by { StepSound(s, q, w); }
    MadeLength(s, q, w);
    forall m: nat | s'.counter <= m < U64_LIMIT ensures id != GeneratedId(m) {
      if id == GeneratedId(m) {
        GeneratedInjective(s.counter, m);
      }
    }
    ObjectLaw(s', steps, id);
    KeptMaterial(s'.objects[id], After(s', steps).objects[id]);
  }

  lemma KeptMaterial(o: Object, o': Object)
    requires Kept(o, o')
    ensures o'.state != Destroyed ==> o'.material == o.material
  {
  }

  /** The store holds a new key of so many bits under this name. */
  predicate Made(s: Store, s': Store, id: string, bits: Option<int>) {
    && id in s'.objects && s'.counter == (s.counter + 1) % U64_LIMIT && bits.Some?
    && s'.objects[id].state == PreActive && s'.objects[id].material.Some?
    && 8 * |s'.objects[id].material.value| == bits.value
  }

  lemma CreateMakes(s: Store, q: Request, w: World)
    requires HandleCreate(s, q, w).1.Success?
    ensures Made(s, HandleCreate(s, q, w).0, GeneratedId(s.counter), LastInteger(q.attributes, LENGTH))
  {
    hide GeneratedId, Collect, LastInteger, LastEnum, Owned;
  }

  lemma DeriveMakes(s: Store, id: string, q: Request, w: World)
    requires HandleDerive(s, id, q, w).1.Success?
    ensures Made(s, HandleDerive(s, id, q, w).0, GeneratedId(s.counter), LastInteger(q.attributes, LENGTH))
  {
    hide GeneratedId, LastInteger, LastBytes, Derived, OwnerAllows, Expanded;
  }

  lemma MadeLength(s: Store, q: Request, w: World)
    requires Creating(q) && Handle(s, q, w).1.Success?
    ensures Handle(s, q, w).1.id == Some(GeneratedId(s.counter))
    ensures Made(s, Handle(s, q, w).0, GeneratedId(s.counter), LastInteger(q.attributes, LENGTH))
  {
    hide GeneratedId, Collect, LastInteger, LastEnum, LastBytes, Owned, OwnerAllows, Created, Made, Material, Derived;
    if q.operation == Create {
      CreateMakes(s, q, w);
    } else {
      DeriveMakes(s, q.uniqueId.value, q, w);
    }
  }

  // ----- clean runs -----------------------------------------------------------------------

  ghost predicate IsGenerated(id: string) {
    exists m: nat :: m < U64_LIMIT && id == GeneratedId(m)
  }

  /** Clients never register a name of the generated form. */
  ghost predicate Clean(steps: seq<Step>) {
    forall i :: 0 <= i < |steps| ==>
      var q := steps[i].request;
      q.operation == Register && q.uniqueId.Some? ==> !IsGenerated(q.uniqueId.value)
  }

  ghost predicate AllSafe(s: Store) {
    forall id :: id in s.objects ==> Safe(id, s.counter)
  }

  lemma StepSafe(s: Store, q: Request, w: World)
    requires Sound(s) && AllSafe(s) && s.counter + 1 < U64_LIMIT
    requires q.operation == Register && q.uniqueId.Some? ==> !IsGenerated(q.uniqueId.value)
    ensures AllSafe(Handle(s, q, w).0)
  {
    hide Handle, Moves, GeneratedId, Sound;
    StepLawful(s, q, w);
    StepCounter(s, q, w);
    var s' := Handle(s, q, w).0;
    forall k | k in s'.objects ensures Safe(k, s'.counter) {
      if k in s.objects {
        assert Safe(k, s.counter);
      } else if q.operation == Register {
        assert !IsGenerated(k);
      } else {
        forall m: nat | s'.counter <= m < U64_LIMIT ensures k != GeneratedId(m) {
          if k == GeneratedId(m) {
            GeneratedInjective(s.counter, m);
          }
        }
      }
    }
  }

  lemma {:induction false} RunSafe(steps: seq<Step>)
    requires Clean(steps) && |steps| + 1 < U64_LIMIT
    ensures AllSafe(After(New(), steps))
  {
    hide Handle, Sound, IsGenerated, Safe;
    if steps != [] {
      var b := Front(steps);
      assert Clean(b) by {
        assert forall i :: 0 <= i < |b| ==> b[i] == steps[i];
      }
      RunSafe(b);
      assert Sound(New()) by { NewSound(); }
      RunSound(New(), b);
      RunCounter(New(), b);
      StepSafe(After(New(), b), Last(steps).request, Last(steps).world);
    }
  }

  lemma NewSound()
    ensures Sound(New())
  {
  }

  lemma {:induction false} AfterSplit(s: Store, steps: seq<Step>, i: nat)
    requires i <= |steps|
    ensures After(s, steps) == After(After(s, steps[..i]), steps[i..])
  {
    hide Handle;
    if i == |steps| {
      assert steps[..i] == steps && steps[i..] == [];
    } else {
      AfterSplit(s, Front(steps), i);
      assert Front(steps)[..i] == steps[..i] && Front(steps)[i..] == Front(steps[i..]) && Last(steps) == Last(steps[i..]);
    }
  }

  /** In every run from the empty store in which clients never register a name of the
      generated form, every object, from any moment to any later one, obeys the law. */
  lemma Lifecycle(steps: seq<Step>, i: nat, j: nat, id: string)
    requires Clean(steps) && |steps| + 1 < U64_LIMIT && i <= j <= |steps|
    requires id in After(New(), steps[..i]).objects
    ensures id in After(New(), steps[..j]).objects
    ensures Kept(After(New(), steps[..i]).objects[id], After(New(), steps[..j]).objects[id])
    ensures j == i + 1 ==> Moves(After(New(), steps[..i]).objects[id], After(New(), steps[..j]).objects[id])
    ensures SoundObject(id, After(New(), steps[..j]).objects[id], After(New(), steps[..j]).floor)
  {
    hide Handle, Kept, Moves, IsGenerated, SoundObject, After;
    var s, t := After(New(), steps[..i]), steps[i..j];
    assert Clean(steps[..i]);
    RunSafe(steps[..i]);
    NewSound();
    RunSound(New(), steps[..i]);
    RunSound(New(), steps[..j]);
    RunCounter(New(), steps[..i]);
    ObjectLaw(s, t, id);
    AfterSplit(New(), steps[..j], i);
    assert steps[..j][..i] == steps[..i] && steps[..j][i..] == t;
    if j == i + 1 {
      assert Front(t) == [];
      AfterNone(s);
    }
  }

  lemma AfterNone(s: Store)
    ensures After(s, []) == s
  {
  }

  // ----- owners ---------------------------------------------------------------------------

  /** A request by anyone but its owner leaves an owned object exactly as it is. */
  lemma Isolation(s: Store, q: Request, w: World, id: string)
    requires Sound(s) && id in s.objects && (Creating(q) ==> id != GeneratedId(s.counter))
    requires TextOwner(s.objects[id].attributes).Some? && q.caller != TextOwner(s.objects[id].attributes)
    ensures id in Handle(s, q, w).0.objects && Handle(s, q, w).0.objects[id] == s.objects[id]
  {
    hide Moves, GeneratedId, TextOwner, AddFault, ChangeFault, FirstFault, Collect, Names, OddBlank,
         ReadImport, LastInteger, LastEnum, LastBytes, Owned, Derived, CreateFault, DeriveLength, Material, Found, Seen, AllAttributes;
    assert !OwnerAllows(s.objects[id], q.caller, q.strict) && !OwnerAllows(s.objects[id], q.caller, false);
    if q.uniqueId != Some(id) {
      assert Lawful(s, Handle(s, q, w).0, q) by {
        hide Handle;
        StepLawful(s, q, w);
      }
      hide Handle;
    }
  }

  /** Over a run: an object none of whose requests come from its owner never changes. */
  lemma {:induction false} RunIsolation(s: Store, steps: seq<Step>, id: string)
    requires Sound(s) && id in s.objects && Safe(id, s.counter) && s.counter + |steps| <= U64_LIMIT
    requires TextOwner(s.objects[id].attributes).Some?
    requires forall i :: 0 <= i < |steps| ==> steps[i].request.caller != TextOwner(s.objects[id].attributes)
    ensures id in After(s, steps).objects && After(s, steps).objects[id] == s.objects[id]
  {
    hide Handle, Sound, GeneratedId, TextOwner;
    if steps != [] {
      var b := Front(steps);
      assert forall i :: 0 <= i < |b| ==> b[i] == steps[i];
      RunIsolation(s, b, id);
      RunSound(s, b);
      RunCounter(s, b);
      Isolation(After(s, b), Last(steps).request, Last(steps).world, id);
    }
  }

  lemma {:induction false} CollectedNames(a: seq<Attribute>, n: string)
    ensures n in Collect(a) ==> n in Names(a)
    ensures ReadImport(a).Ok? && n in ReadImport(a).value.attributes ==> n in Names(a)
  {
    if a != [] {
      CollectedNames(Front(a), n);
      assert Last(a) == a[|a| - 1];
      forall k | k in Names(Front(a)) ensures k in Names(a) {
        var i :| 0 <= i < |a| - 1 && Front(a)[i].name == k;
        assert a[i].name == k;
      }
    }
  }

  /** A key made, imported or derived for a known caller that names no owner is theirs from
      the start, and `RunIsolation` applies to it. */
  lemma OwnedAtBirth(s: Store, q: Request, w: World)
    requires Creating(q) || q.operation == Register
    requires q.caller.Some? && Handle(s, q, w).1.Success? && (q.operation == DeriveKey || OWNER !in Names(q.attributes))
    ensures var s', r := Handle(s, q, w).0, Handle(s, q, w).1;
            r.id.Some? && r.id.value in s'.objects &&
            (q.operation == Register ==> r.id == q.uniqueId && r.id.value !in s.objects) &&
            var o := s'.objects[r.id.value];
            o.state == PreActive && o.created == o.modified == s'.floor && TextOwner(o.attributes) == q.caller
  {
    hide GeneratedId, LastInteger, LastEnum, LastBytes, Collect, Names, ReadImport, OwnerAllows, CreateFault, DeriveLength, Material;
    CollectedNames(q.attributes, OWNER);
    assert OWNER != LENGTH && OWNER != DERIVED_FROM;
  }

  // ----- what a caller is told ----------------------------------------------------------

  /** The store as if the object had never been. */
  function Without(s: Store, id: string): Store {
    s.(objects := s.objects - {id}, index := map t | t in s.index :: s.index[t] - {id})
  }

  /** What goes back to the client: an answer, or a reason with its text. */
  datatype View = Answered(answer: Response) | Refused(reason: Reason, text: string)

  function Shown(r: Response): View {
    match r
    case Success(_, _, _, _, _) => Answered(r)
    case Failure(f) => Refused(f.reason, Wording(f.message))
  }

  /** The requests whose answer tells another owner's object from none. */
  predicate Tells(s: Store, q: Request, id: string)
    requires id in s.objects
  {
    q.uniqueId == Some(id) &&
    match q.operation
    case Register => true
    case Activate => true
    case Revoke => true
    case Destroy => true
    case Get => s.objects[id].state == Destroyed
    case Check => s.objects[id].state == Destroyed
    case DeriveKey => s.objects[id].state != Destroyed && DeriveLength(LastInteger(q.attributes, LENGTH))
    case _ => false
  }

  lemma WordingsDiffer(op: Operation, id: string)
    requires op == Activate || op == Revoke || op == Destroy
    ensures Wording(NotFound) != Wording(MoveFailed(op, id))
    ensures Wording(NotFound) != Wording(HasBeenDestroyed)
    ensures Wording(NotFound) != Wording(DeriveInputMissing)
  {
    assert Wording(NotFound)[0] == 'o';
    assert Wording(MoveFailed(op, id))[0] == Lower(OperationName(op))[0];
    assert |Wording(NotFound)| == 16 && |Wording(HasBeenDestroyed)| == 25 && |Wording(DeriveInputMissing)| == 30;
  }

  lemma MaskedNamed(s: Store, q: Request, w: World, id: string)
    requires id in s.objects && q.uniqueId == Some(id) && q.operation != Create && q.operation != Locate
    requires !OwnerAllows(s.objects[id], q.caller, q.strict) && !OwnerAllows(s.objects[id], q.caller, false)
    ensures Shown(Handle(s, q, w).1) == Shown(Handle(Without(s, id), q, w).1) <==> !Tells(s, q, id)
  {
    hide GeneratedId, AddFault, ChangeFault, FirstFault, Collect, Names, OddBlank, OwnerAllows, Wording, Material,
         ReadImport, LastInteger, LastEnum, LastBytes, Owned, Derived, Created, Registered, Moved, Used, WithAttributes,
         UsageLeft, DeriveLength, AllAttributes;
    WordingsDiffer(if q.operation == Revoke || q.operation == Destroy then q.operation else Activate, id);
  }

  lemma MaskedElsewhere(s: Store, q: Request, w: World, id: string)
    requires Sound(s) && id in s.objects && q.operation != Locate && (q.operation == Create || q.uniqueId != Some(id))
    ensures Handle(s, q, w).1 == Handle(Without(s, id), q, w).1
  {
    hide GeneratedId, AddFault, ChangeFault, FirstFault, Collect, Names, OddBlank, OwnerAllows, Material,
         ReadImport, LastInteger, LastEnum, LastBytes, Owned, Derived, Created, Registered, Moved, Used, WithAttributes,
         UsageLeft, CreateFault, DeriveLength, AllAttributes;
    var k := q.uniqueId;
    assert k.Some? && k.value in s.objects ==> SoundObject(k.value, s.objects[k.value], s.floor);
  }

  lemma {:induction false} KeepTwice(p: string -> bool, q: string -> bool, walk: seq<string>)
    ensures Keep(q, Keep(p, walk)) == Keep(x => p(x) && q(x), walk)
  {
    if walk != [] {
      KeepTwice(p, q, Front(walk));
      var k := Keep(p, Front(walk));
      assert Front(k + [Last(walk)]) == k;
    }
  }

  lemma {:induction false} KeepSame(p: string -> bool, q: string -> bool, walk: seq<string>)
    requires forall x :: p(x) == q(x)
    ensures Keep(p, walk) == Keep(q, walk)
  {
    if walk != [] {
      KeepSame(p, q, Front(walk));
    }
  }

  predicate Listed(s: Store, filter: Attributes, caller: Option<string>, id: string) {
    Matches(s, filter, id) && Visible(s, caller, id)
  }

  lemma SeenFound(s: Store, filter: Attributes, caller: Option<string>, walk: seq<string>)
    ensures Seen(s, caller, Found(s, filter, walk)) == Keep(x => Listed(s, filter, caller, x), walk)
  {
    hide Matches, Visible;
    KeepTwice(x => Matches(s, filter, x), x => Visible(s, caller, x), walk);
    KeepSame(x => (y => Matches(s, filter, y))(x) && (y => Visible(s, caller, y))(x), x => Listed(s, filter, caller, x), walk);
  }

  lemma LocateMasked(s: Store, q: Request, w: World, id: string)
    requires id in s.objects && !OwnerAllows(s.objects[id], q.caller, false)
    ensures HandleLocate(s, q, w) == HandleLocate(Without(s, id), q, w)
  {
    hide Collect, OwnerAllows, Keep, Found, Seen;
    var f, s' := Collect(q.attributes), Without(s, id);
    forall x ensures Listed(s, f, q.caller, x) == Listed(s', f, q.caller, x) {
    }
    SeenFound(s, f, q.caller, w.walk);
    SeenFound(s', f, q.caller, w.walk);
    KeepSame(x => Listed(s, f, q.caller, x), x => Listed(s', f, q.caller, x), w.walk);
  }

  /** What a caller is told does not depend on an object of another owner, except for the
      requests in `Tells`, and for those it does. */
  lemma Masked(s: Store, q: Request, w: World, id: string)
    requires Sound(s) && id in s.objects
    requires TextOwner(s.objects[id].attributes).Some? && q.caller != TextOwner(s.objects[id].attributes)
    ensures Shown(Handle(s, q, w).1) == Shown(Handle(Without(s, id), q, w).1) <==> !Tells(s, q, id)
  {
    hide TextOwner, Sound, HandleCreate, HandleNamed, HandleLocate, Tells;
    if q.operation == Locate {
      LocateMasked(s, q, w, id);
      assert !Tells(s, q, id) by { OnlyNamed(s, q, id); }
    } else if q.operation != Create && q.uniqueId == Some(id) {
      MaskedNamed(s, q, w, id);
    } else {
      MaskedElsewhere(s, q, w, id);
      assert !Tells(s, q, id) by { OnlyNamed(s, q, id); }
    }
  }

  lemma OnlyNamed(s: Store, q: Request, id: string)
    requires id in s.objects && (q.operation == Locate || q.operation == Create || q.uniqueId != Some(id))
    ensures !Tells(s, q, id)
  {
  }

  lemma ActivateWording()
    ensures Wording(NotFound) == "object not found" && Wording(MoveFailed(Activate, "k")) == "activate failed for k"
  {
    var l := Lower("Activate");
    assert |l| == 8 && l[0] == 'a' && l[1] == 'c' && l[2] == 't' && l[3] == 'i';
    assert l[4] == 'v' && l[5] == 'a' && l[6] == 't' && l[7] == 'e';
    assert l == "activate";
    assert "activate" + " failed for " + "k" == "activate failed for k";
  }

  lemma ActivateAnswers(o: Object, q: Request, w: World)
    requires o.attributes == map[OWNER := TextValue("bob")] && q.operation == Activate
    requires q.uniqueId == Some("k") && q.caller == Some("alice")
    ensures Handle(New().(objects := map["k" := o]), q, w).1 == MISSING
    ensures Handle(New(), q, w).1 == Failure(Fault(ObjectNotFound, MoveFailed(Activate, "k")))
  {
    hide Moved;
    assert "bob"[0] != "alice"[0];
  }

  /** Activate by someone else, on an object of Bob's and on no object at all. */
  lemma ActivateTells(w: World)
    ensures var o := Object("k", SymmetricKey, PreActive, None, map[OWNER := TextValue("bob")], 0, 0);
            var q := Request(Activate, Some("k"), [], Some("alice"), false);
            && Shown(Handle(New().(objects := map["k" := o]), q, w).1) == Refused(ObjectNotFound, "object not found")
            && Shown(Handle(New(), q, w).1) == Refused(ObjectNotFound, "activate failed for k")
  {
    hide Handle, Wording;
    var o := Object("k", SymmetricKey, PreActive, None, map[OWNER := TextValue("bob")], 0, 0);
    ActivateAnswers(o, Request(Activate, Some("k"), [], Some("alice"), false), w);
    ActivateWording();
  }

  /** A walk over all objects lists exactly the live ones that match the filter and that the
      caller may see, cut at a thousand. */
  lemma LocateExact(s: Store, q: Request, w: World)
    requires forall id :: id in s.objects ==> id in w.walk
    ensures var r := HandleLocate(s, q, w);
            && r.Success? && |r.located| <= 1000
            && (forall id :: id in r.located ==> Listed(s, Collect(q.attributes), q.caller, id))
            && (r.attributes == map[] ==>
                  forall id :: Listed(s, Collect(q.attributes), q.caller, id) ==> id in r.located)
            && (r.attributes != map[] ==> |r.located| == 1000)
  {
    hide Collect, Keep, Found, Seen;
    var f := Collect(q.attributes);
    SeenFound(s, f, q.caller, w.walk);
    var all := Keep(x => Listed(s, f, q.caller, x), w.walk);
    forall id ensures id in all <==> id in w.walk && Listed(s, f, q.caller, id) {
      KeepHolds(x => Listed(s, f, q.caller, x), w.walk, id);
    }
    assert TRUNCATED in map[TRUNCATED := Integer(LOCATE_MAX)];
  }

  lemma {:induction false} KeepHolds(p: string -> bool, walk: seq<string>, id: string)
    ensures id in Keep(p, walk) <==> id in walk && p(id)
  {
    if walk != [] {
      KeepHolds(p, Front(walk), id);
      assert walk == Front(walk) + [Last(walk)];
    }
  }

  // ----- when a creation overwrites -------------------------------------------------------

  /** Request and world in which a 256-bit key of 32 equal bytes is made. */
  function CreateStep(x: byte): Step {
    Step(Request(Create, None, [Attribute(LENGTH, Integer(256))], None, false), World(0, Some(_ => x), (_, _, _) => None, []))
  }

  lemma CreateStepWorks(s: Store, x: byte)
    ensures Handle(s, CreateStep(x).request, CreateStep(x).world).0 ==
            Created(s, seq(32, _ => x), map[LENGTH := Integer(256)], 0)
  {
    var a := [Attribute(LENGTH, Integer(256))];
    assert Front(a) == [] && Last(a) == Attribute(LENGTH, Integer(256));
    assert Collect(a) == map[LENGTH := Integer(256)];
    assert LastInteger(a, LENGTH) == Some(256);
    assert LastEnum(a, ALGORITHM) == None;
    assert Material(_ => x, 256) == seq(32, _ => x);
  }

  lemma {:induction false} CreatesCount(s: Store, m: byte, k: nat)
    requires s.counter + k < U64_LIMIT
    ensures After(s, seq(k, _ => CreateStep(m))).counter == s.counter + k
    decreases k
  {
    hide Handle, CreateStep;
    if k > 0 {
      var steps := seq(k, _ => CreateStep(m));
      assert Front(steps) == seq(k - 1, _ => CreateStep(m)) && Last(steps) == CreateStep(m);
      CreatesCount(s, m, k - 1);
      CreateStepWorks(After(s, Front(steps)), m);
    }
  }

  /** If a name is still to be generated, a run of creations replaces the key under it. */
  lemma Overwritten(s: Store, n: nat) returns (steps: seq<Step>)
    requires s.counter <= n < U64_LIMIT && GeneratedId(n) in s.objects
    ensures s.counter + |steps| <= U64_LIMIT
    ensures GeneratedId(n) in After(s, steps).objects
    ensures !Kept(s.objects[GeneratedId(n)], After(s, steps).objects[GeneratedId(n)])
  {
    hide Handle, CreateStep, GeneratedId;
    var ones: bytes := seq(32, _ => 1);
    var m: byte := if s.objects[GeneratedId(n)].material == Some(ones) then 2 else 1;
    steps := seq(n - s.counter + 1, _ => CreateStep(m));
    assert Front(steps) == seq(n - s.counter, _ => CreateStep(m)) && Last(steps) == CreateStep(m);
    CreatesCount(s, m, n - s.counter);
    CreateStepWorks(After(s, Front(steps)), m);
    var made: bytes := seq(32, _ => m);
    assert made[0] == m && ones[0] == 1;
    assert After(s, steps).objects[GeneratedId(n)].material == Some(made);
  }

  /** The law holds of an object in every run exactly when its name is not one still to be
      generated. */
  lemma KeptIff(s: Store, id: string)
    requires Sound(s) && id in s.objects && s.counter < U64_LIMIT
    ensures Safe(id, s.counter) <==>
            forall steps :: s.counter + |steps| <= U64_LIMIT ==>
              id in After(s, steps).objects && Kept(s.objects[id], After(s, steps).objects[id])
  {
    hide Handle, Kept, GeneratedId, After, Sound;
    if Safe(id, s.counter) {
      forall steps: seq<Step> | s.counter + |steps| <= U64_LIMIT
        ensures id in After(s, steps).objects && Kept(s.objects[id], After(s, steps).objects[id])
      {
        ObjectLaw(s, steps, id);
      }
    } else {
      var n: nat :| s.counter <= n < U64_LIMIT && id == GeneratedId(n);
      var steps := Overwritten(s, n);
    }
  }
}
