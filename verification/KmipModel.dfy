/** Managed objects, the rules on them, and what each request does to the store. */
module KmipModel {
  import opened Wrappers
  import opened Text

  datatype ObjectType = SymmetricKey | PublicKey | PrivateKey | Certificate | SecretData | OpaqueData
  datatype State = PreActive | Active | Deactivated | Compromised | Destroyed
  datatype Value =
    | TextValue(text: string) | Integer(int32: int) | LongInteger(int64: int)
    | Enum(code: nat) | Bytes(data: bytes) | Boolean(flag: bool)
  datatype Attribute = Attribute(name: string, value: Value)
  type Attributes = map<string, Value>

  datatype Object = Object(id: string, objectType: ObjectType, state: State, material: Option<bytes>,
                           attributes: Attributes, created: nat, modified: nat)

  /** Created objects by type, to speed up Locate. */
  type Index = map<ObjectType, set<string>>

  /** The store, with the floor under the wall clock. */
  datatype Store = Store(objects: map<string, Object>, index: Index, counter: nat, floor: nat)

  datatype Reason =
    | ItemNotFound | PermissionDenied | ObjectNotFound | CryptographicFailure | InvalidMessage | InvalidField

  datatype Operation =
    | Create | Register | Get | Activate | Revoke | Destroy | Check
    | AddAttribute | ModifyAttribute | DeleteAttribute | DeriveKey
    | GetAttributes | Locate | Other

  datatype Request = Request(operation: Operation, uniqueId: Option<string>, attributes: seq<Attribute>,
                             caller: Option<string>, strict: bool)

  /** The texts of refusals. */
  datatype Message =
    | NeedsId(op: Operation) | NeedsAttributes(op: Operation) | NotFound | HasBeenDestroyed | MoveFailed(op: Operation, id: string)
    | LengthMissing | BadTripleDes(bits: int) | BadAes(bits: int) | UnsupportedAlgorithm(code: nat) | NotPositive(bits: int)
    | BadLength | RngUnavailable
    | UnknownObjectType(code: nat) | RegisterFailed
    | PaddedText | ControlBlank | ImmutableViaAdd(name: string) | AlreadyExists(name: string) | AddFailed
    | ImmutableText(name: string) | MissingForModify(name: string) | MissingForDelete(name: string) | ModifyFailed | DeleteFailed
    | DeriveBadLength | DeriveInputMissing | DeriveNoMaterial | DeriveExpandFailed

  datatype Fault = Fault(reason: Reason, message: Message)

  datatype Response =
    | Success(id: Option<string>, objectType: Option<ObjectType>, material: Option<bytes>, attributes: Attributes,
              located: seq<string>)
    | Failure(fault: Fault)

  /** Bytes of a generator, as many as are asked for. */
  type Stream = nat -> byte

  /** What a request meets: the wall clock, the random generator if it works, the key
      derivation of salt, key and info, and the order in which the store's maps are walked. */
  datatype World = World(wall: nat, drawn: Option<Stream>, hkdf: (bytes, bytes, bytes) -> Option<Stream>, walk: seq<string>)

  const OWNER := "owner"
  const ALGORITHM := "Cryptographic Algorithm"
  const LENGTH := "Cryptographic Length"
  const OBJECT_TYPE := "Object Type"
  const KEY_MATERIAL := "Key Material"
  const USAGE_COUNTER := "Cryptographic Usage Limits Counter"
  const DERIVED_FROM := "Derived From"
  const STATE := "State"
  const INITIAL_DATE := "Initial Date"
  const LAST_CHANGE_DATE := "Last Change Date"
  const TRUNCATED := "Locate-Truncated"
  const LOCATE_MAX := 1000

  function New(): Store {
    Store(map[], map[], 1, 0)
  }

  // ----- rules ------------------------------------------------------------------------

  predicate AllowedTransition(from: State, to: State) {
    match (from, to)
    case (PreActive, Active) => true
    case (Active, Deactivated) => true
    case (PreActive, Destroyed) => true
    case (Deactivated, Destroyed) => true
    case _ => false
  }

  function LowerChar(c: char): char {
    if 'A' <= c <= 'Z' then (c as int + 32) as char else c
  }

  function Lower(s: string): string {
    seq(|s|, i requires 0 <= i < |s| => LowerChar(s[i]))
  }

  predicate IsImmutable(name: string) {
    Lower(name) in [Lower(OWNER), Lower(ALGORITHM), Lower(LENGTH), Lower(OBJECT_TYPE), Lower(KEY_MATERIAL)]
  }

  function Find(a: Attributes, name: string): Option<Value> {
    if name in a then Some(a[name]) else None
  }

  function TextOwner(a: Attributes): Option<string> {
    if OWNER in a && a[OWNER].TextValue? then Some(a[OWNER].text) else None
  }

  /** `check_owner_acl_with_options`. */
  predicate OwnerAllows(o: Object, caller: Option<string>, strict: bool) {
    match TextOwner(o.attributes)
    case Some(w) => caller == Some(w)
    case None => !(strict && caller.Some?)
  }

  predicate Collides(a: Attributes, name: string) {
    exists k :: k in a && Lower(k) == Lower(name)
  }

  // ----- identifiers ------------------------------------------------------------------

  function HexNat(n: nat): (s: string)
    ensures s != ""
  {
    if n < 16 then [HexDigit(n)] else HexNat(n / 16) + [HexDigit(n % 16)]
  }

  function Padded(n: nat, width: nat): string {
    var digits := HexNat(n);
    (if |digits| < width then seq(width - |digits|, _ => '0') else "") + digits
  }

  /** `kmip-{seq:08x}` */
  function GeneratedId(n: nat): string {
    "kmip-" + Padded(n, 8)
  }

  // ----- refusals -----------------------------------------------------------------------

  function OperationName(op: Operation): string {
    match op
    case Create => "Create"
    case Register => "Register"
    case Get => "Get"
    case Activate => "Activate"
    case Revoke => "Revoke"
    case Destroy => "Destroy"
    case Check => "Check"
    case AddAttribute => "AddAttribute"
    case ModifyAttribute => "ModifyAttribute"
    case DeleteAttribute => "DeleteAttribute"
    case DeriveKey => "DeriveKey"
    case GetAttributes => "GetAttributes"
    case Locate => "Locate"
    case Other => ""
  }

  function Signed(n: int): string {
    if n < 0 then "-" + Decimal(-n) else Decimal(n)
  }

  /** What the client reads. */
  function Wording(m: Message): string {
    match m
    case NeedsId(op) => OperationName(op) + " requires a UniqueIdentifier"
    case NeedsAttributes(op) =>
      OperationName(op) + " requires at least one attribute" + if op == DeleteAttribute then " name" else ""
    case NotFound => "object not found"
    case HasBeenDestroyed => "object has been destroyed"
    case MoveFailed(op, id) => Lower(OperationName(op)) + " failed for " + id
    case LengthMissing => "Create requires an explicit Cryptographic Length attribute"
    case BadTripleDes(bits) => "3DES requires key length 128 or 192 bits, got " + Signed(bits)
    case BadAes(bits) => "AES requires key length 128, 192, or 256 bits, got " + Signed(bits)
    case UnsupportedAlgorithm(code) => "unsupported algorithm 0x" + Padded(code, 4) + " for symmetric key creation"
    case NotPositive(bits) => "Cryptographic Length must be positive, got " + Signed(bits)
    case BadLength => "Cryptographic Length must be a multiple of 8 and at least 128 bits"
    case RngUnavailable => "OS RNG unavailable"
    case UnknownObjectType(code) => "Register: unknown Object Type enum value 0x" + Padded(code, 8)
    case RegisterFailed => "register failed"
    case PaddedText => "attribute name must not have surrounding whitespace"
    case ControlBlank => "attribute name must not contain control whitespace"
    case ImmutableViaAdd(name) => "attribute '" + name + "' is immutable via AddAttribute"
    case AlreadyExists(name) => "attribute '" + name + "' already exists (case-insensitive); use ModifyAttribute instead"
    case AddFailed => "add_attribute failed"
    case ImmutableText(name) => "attribute '" + name + "' is immutable"
    case MissingForModify(name) => "attribute '" + name + "' does not exist; use AddAttribute"
    case MissingForDelete(name) => "attribute '" + name + "' does not exist"
    case ModifyFailed => "modify_attribute failed"
    case DeleteFailed => "delete_attribute failed"
    case DeriveBadLength => "DeriveKey requires a positive Cryptographic Length (multiple of 8, <= 8192 bits)"
    case DeriveInputMissing => "DeriveKey: input key not found"
    case DeriveNoMaterial => "DeriveKey: input key has no material"
    case DeriveExpandFailed => "DeriveKey: HKDF expand failed"
  }

  // ----- the store's operations ---------------------------------------------------------

  function Later(floor: nat, wall: nat): (t: nat)
    ensures floor <= t && wall <= t && (t == floor || t == wall)
  {
    if wall > floor then wall else floor
  }

  function Put(s: Store, id: string, o: Object, wall: nat): Store {
    var now := Later(s.floor, wall);
    s.(objects := s.objects[id := o.(modified := now)], floor := now)
  }

  function Fresh(id: string, t: ObjectType, m: Option<bytes>, a: Attributes, now: nat): Object {
    Object(id, t, PreActive, m, a, now, now)
  }

  function Indexed(index: Index, t: ObjectType, id: string): Index {
    index[t := (if t in index then index[t] else {}) + {id}]
  }

  function Unindexed(index: Index, t: ObjectType, id: string): Index {
    if t in index then index[t := index[t] - {id}] else index
  }

  function Created(s: Store, m: bytes, a: Attributes, wall: nat): Store {
    var id, now := GeneratedId(s.counter), Later(s.floor, wall);
    Store(s.objects[id := Fresh(id, SymmetricKey, Some(m), a, now)], Indexed(s.index, SymmetricKey, id),
          (s.counter + 1) % U64_LIMIT, now)
  }

  function Registered(s: Store, id: string, t: ObjectType, m: Option<bytes>, a: Attributes, wall: nat): Store {
    var now := Later(s.floor, wall);
    s.(objects := if id in s.objects then s.objects else s.objects[id := Fresh(id, t, m, a, now)], floor := now)
  }

  function MoveFault(s: Store, id: string, to: State): Option<Reason> {
    if id !in s.objects || s.objects[id].state == Destroyed then Some(ObjectNotFound)
    else if !AllowedTransition(s.objects[id].state, to) then Some(PermissionDenied)
    else None
  }

  /** `activate`, `revoke` and `destroy`. */
  function Moved(s: Store, id: string, to: State, wall: nat): Store {
    if MoveFault(s, id, to).Some? then s
    else
      var o := s.objects[id];
      var s1 := Put(s, id, o.(state := to, material := if to == Destroyed then None else o.material), wall);
      if to == Destroyed then s1.(index := Unindexed(s.index, o.objectType, id)) else s1
  }

  function UsageLeft(a: Attributes): Option<int> {
    match Find(a, USAGE_COUNTER)
    case Some(LongInteger(v)) => Some(if v > 1 then v - 1 else 0)
    case Some(Integer(v)) => Some(if v > 1 then v - 1 else 0)
    case _ => None
  }

  function Used(s: Store, id: string, wall: nat): Store {
    if id !in s.objects then s
    else
      var o := s.objects[id];
      match UsageLeft(o.attributes)
      case None => s
      case Some(left) => Put(s, id, o.(attributes := o.attributes[USAGE_COUNTER := LongInteger(left)]), wall)
  }

  function WithAttributes(s: Store, id: string, a: Attributes, wall: nat): Store
    requires id in s.objects
  {
    Put(s, id, s.objects[id].(attributes := a), wall)
  }

  // ----- reading a request ----------------------------------------------------------------

  /** The attributes as a map; a later one of the same name wins. */
  function Collect(a: seq<Attribute>): Attributes {
    if a == [] then map[] else Collect(Front(a))[Last(a).name := Last(a).value]
  }

  function LastEnum(a: seq<Attribute>, name: string): Option<nat> {
    if a == [] then None
    else if Last(a).name == name && Last(a).value.Enum? then Some(Last(a).value.code)
    else LastEnum(Front(a), name)
  }

  function LastInteger(a: seq<Attribute>, name: string): Option<int> {
    if a == [] then None
    else if Last(a).name == name && Last(a).value.Integer? then Some(Last(a).value.int32)
    else LastInteger(Front(a), name)
  }

  function Owned(a: Attributes, caller: Option<string>): Attributes {
    if OWNER !in a && caller.Some? then a[OWNER := TextValue(caller.value)] else a
  }

  function LastBytes(a: seq<Attribute>, name: string): bytes {
    if a == [] then []
    else if Last(a).name == name && Last(a).value.Bytes? then Last(a).value.data
    else LastBytes(Front(a), name)
  }

  /** What stands against the requested algorithm and length. */
  function CreateFault(algorithm: Option<nat>, bits: Option<int>): Option<Message> {
    if bits.None? then Some(LengthMissing)
    else
      var n := bits.value;
      if algorithm == Some(1) && n != 128 && n != 192 then Some(BadTripleDes(n))
      else if algorithm == Some(3) && n != 128 && n != 192 && n != 256 then Some(BadAes(n))
      else if algorithm.Some? && algorithm.value != 1 && algorithm.value != 3 then Some(UnsupportedAlgorithm(algorithm.value))
      else if n <= 0 then Some(NotPositive(n))
      else if n % 8 != 0 || n < 128 then Some(BadLength)
      else None
  }

  /** A key of so many bits. */
  function Material(stream: Stream, bits: nat): (m: bytes)
    ensures |m| == bits / 8
  {
    seq(bits / 8, i requires 0 <= i < bits / 8 => stream(i))
  }

  function TypeOf(code: nat): Option<ObjectType> {
    match code
    case 1 => Some(SymmetricKey)
    case 2 => Some(PublicKey)
    case 3 => Some(PrivateKey)
    case 6 => Some(Certificate)
    case 7 => Some(SecretData)
    case 8 => Some(OpaqueData)
    case _ => None
  }

  datatype Import = Import(objectType: ObjectType, material: Option<bytes>, attributes: Attributes)

  /** What Register reads from its attributes, up to an unknown object type. */
  function ReadImport(a: seq<Attribute>): Result<Import, Message> {
    if a == [] then Ok(Import(SymmetricKey, None, map[]))
    else match ReadImport(Front(a))
      case Err(e) => Err(e)
      case Ok(i) =>
        var Attribute(name, value) := Last(a);
        if name == OBJECT_TYPE then
          var i' := i.(attributes := i.attributes[name := value]);
          if !value.Enum? then Ok(i')
          else if TypeOf(value.code).Some? then Ok(i'.(objectType := TypeOf(value.code).value))
          else Err(UnknownObjectType(value.code))
        else if name == KEY_MATERIAL then
          Ok(if value.Bytes? then i.(material := Some(value.data)) else i)
        else Ok(i.(attributes := i.attributes[name := value]))
  }

  predicate PaddedName(name: string) {
    Trim(name) == "" || Trim(name) != name
  }

  /** What the handler holds against adding an attribute. */
  function AddFault(a: Attributes, name: string): Option<Fault> {
    if PaddedName(name) then Some(Fault(InvalidField, PaddedText))
    else if '\t' in name || '\n' in name || '\r' in name then Some(Fault(InvalidField, ControlBlank))
    else if IsImmutable(name) then Some(Fault(PermissionDenied, ImmutableViaAdd(name)))
    else if Collides(a, name) then Some(Fault(InvalidField, AlreadyExists(name)))
    else None
  }

  predicate OddBlank(name: string) {
    exists c :: c in name && IsSpace(c) && c != ' '
  }

  /** What the store holds against it. */
  function StoreAddFault(a: Attributes, name: string): Option<Reason> {
    if PaddedName(name) || OddBlank(name) then Some(InvalidField)
    else if IsImmutable(name) then Some(PermissionDenied)
    else if Collides(a, name) then Some(InvalidField)
    else None
  }

  /** What stands against modifying or deleting an attribute. */
  function ChangeFault(op: Operation, a: Attributes, name: string): Option<Fault> {
    if IsImmutable(name) then Some(Fault(PermissionDenied, ImmutableText(name)))
    else if name !in a then
      Some(Fault(ItemNotFound, if op == ModifyAttribute then MissingForModify(name) else MissingForDelete(name)))
    else None
  }

  /** The first attribute at fault decides. */
  function FirstFault(fault: string -> Option<Fault>, a: seq<Attribute>): Option<Fault> {
    if a == [] then None
    else if FirstFault(fault, Front(a)).Some? then FirstFault(fault, Front(a))
    else fault(Last(a).name)
  }

  function Names(a: seq<Attribute>): set<string> {
    set i | 0 <= i < |a| :: a[i].name
  }

  // ----- reading the store ----------------------------------------------------------------

  function StateName(st: State): string {
    match st
    case PreActive => "PreActive"
    case Active => "Active"
    case Deactivated => "Deactivated"
    case Compromised => "Compromised"
    case Destroyed => "Destroyed"
  }

  function TypeCode(t: ObjectType): nat {
    match t
    case SymmetricKey => 1
    case PublicKey => 2
    case PrivateKey => 3
    case Certificate => 6
    case SecretData => 7
    case OpaqueData => 8
  }

  /** `as i64` */
  function AsInt64(n: nat): int {
    var m := n % U64_LIMIT;
    if m < U64_LIMIT / 2 then m else m - U64_LIMIT
  }

  predicate IsSynthetic(name: string) {
    Lower(name) in [Lower(STATE), Lower(OBJECT_TYPE), Lower(INITIAL_DATE), Lower(LAST_CHANGE_DATE)]
  }

  /** `get_attributes`: what is stored, under what the server itself says. */
  function AllAttributes(o: Object): Attributes {
    (map n | n in o.attributes && !IsSynthetic(n) :: o.attributes[n])
    [STATE := TextValue(StateName(o.state))]
    [OBJECT_TYPE := Enum(TypeCode(o.objectType))]
    [INITIAL_DATE := LongInteger(AsInt64(o.created))]
    [LAST_CHANGE_DATE := LongInteger(AsInt64(o.modified))]
  }

  function Keep(p: string -> bool, walk: seq<string>): seq<string> {
    if walk == [] then []
    else if p(Last(walk)) then Keep(p, Front(walk)) + [Last(walk)]
    else Keep(p, Front(walk))
  }

  /** The type a filter asks for. */
  function FilterType(filter: Attributes): Option<ObjectType> {
    if OBJECT_TYPE in filter && filter[OBJECT_TYPE].Enum? then TypeOf(filter[OBJECT_TYPE].code) else None
  }

  /** `locate`: by type only what the index lists, otherwise everything. */
  predicate Matches(s: Store, filter: Attributes, id: string) {
    var t := FilterType(filter);
    && id in s.objects && s.objects[id].state != Destroyed
    && (t.Some? ==> t.value in s.index && id in s.index[t.value])
    && (forall n :: n in filter && !(t.Some? && n == OBJECT_TYPE) ==> Find(s.objects[id].attributes, n) == Some(filter[n]))
  }

  predicate Visible(s: Store, caller: Option<string>, id: string) {
    id in s.objects && OwnerAllows(s.objects[id], caller, false)
  }

  function Found(s: Store, filter: Attributes, walk: seq<string>): seq<string> {
    Keep(id => Matches(s, filter, id), walk)
  }

  function Seen(s: Store, caller: Option<string>, ids: seq<string>): seq<string> {
    Keep(id => Visible(s, caller, id), ids)
  }

  // ----- requests -------------------------------------------------------------------------

  function Done(id: string): Response {
    Success(Some(id), None, None, map[], [])
  }

  function DoneWith(id: string, t: ObjectType): Response {
    Success(Some(id), Some(t), None, map[], [])
  }

  function DoneBare(): Response {
    Success(None, None, None, map[], [])
  }

  const MISSING := Failure(Fault(ObjectNotFound, NotFound))
  const DESTROYED := Failure(Fault(ObjectNotFound, HasBeenDestroyed))

  function HandleCreate(s: Store, q: Request, w: World): (Store, Response) {
    var bits := LastInteger(q.attributes, LENGTH);
    var fault := CreateFault(LastEnum(q.attributes, ALGORITHM), bits);
    if fault.Some? then (s, Failure(Fault(InvalidField, fault.value)))
    else if w.drawn.None? then (s, Failure(Fault(CryptographicFailure, RngUnavailable)))
    else (Created(s, Material(w.drawn.value, bits.value), Owned(Collect(q.attributes), q.caller), w.wall),
          DoneWith(GeneratedId(s.counter), SymmetricKey))
  }

  function HandleRegister(s: Store, id: string, q: Request, w: World): (Store, Response) {
    if id in s.objects && !OwnerAllows(s.objects[id], q.caller, q.strict) then (s, MISSING)
    else match ReadImport(q.attributes)
      case Err(e) => (s, Failure(Fault(InvalidField, e)))
      case Ok(i) =>
        (Registered(s, id, i.objectType, i.material, Owned(i.attributes, q.caller), w.wall),
         if id in s.objects then Failure(Fault(ObjectNotFound, RegisterFailed)) else DoneWith(id, i.objectType))
  }

  function HandleGet(s: Store, id: string, q: Request): Response {
    if id !in s.objects then MISSING
    else if s.objects[id].state == Destroyed then DESTROYED
    else if !OwnerAllows(s.objects[id], q.caller, q.strict) then MISSING
    else Success(Some(s.objects[id].id), Some(s.objects[id].objectType), s.objects[id].material, map[], [])
  }

  function HandleGetAttributes(s: Store, id: string, q: Request): Response {
    if id !in s.objects || !OwnerAllows(s.objects[id], q.caller, q.strict) then MISSING
    else Success(Some(id), None, None, AllAttributes(s.objects[id]), [])
  }

  function HandleLocate(s: Store, q: Request, w: World): Response {
    var visible := Seen(s, q.caller, Found(s, Collect(q.attributes), w.walk));
    if |visible| <= LOCATE_MAX then DoneBare().(located := visible)
    else DoneBare().(located := visible[..LOCATE_MAX], attributes := map[TRUNCATED := Integer(LOCATE_MAX)])
  }

  function MoveTarget(op: Operation): State {
    if op == Activate then Active else if op == Revoke then Deactivated else Destroyed
  }

  function HandleMove(s: Store, id: string, q: Request, w: World): (Store, Response) {
    if id in s.objects && !OwnerAllows(s.objects[id], q.caller, false) then (s, MISSING)
    else (Moved(s, id, MoveTarget(q.operation), w.wall),
          match MoveFault(s, id, MoveTarget(q.operation))
          case Some(r) => Failure(Fault(r, MoveFailed(q.operation, id)))
          case None => Done(id))
  }

  function HandleCheck(s: Store, id: string, q: Request, w: World): (Store, Response) {
    if id !in s.objects then (s, MISSING)
    else if s.objects[id].state == Destroyed then (s, DESTROYED)
    else if !OwnerAllows(s.objects[id], q.caller, q.strict) then (s, MISSING)
    else
      var o := s.objects[id];
      (Used(s, o.id, w.wall),
       if o.id in s.objects && UsageLeft(s.objects[o.id].attributes).Some?
       then Done(o.id).(attributes := map[USAGE_COUNTER := LongInteger(UsageLeft(s.objects[o.id].attributes).value)])
       else Done(o.id))
  }

  /** The part shared by the three attribute requests: what stands against them, if
      anything, before the attributes are looked at. */
  function EditFault(s: Store, id: string, q: Request): Option<Fault> {
    if q.attributes == [] then Some(Fault(InvalidField, NeedsAttributes(q.operation)))
    else if id !in s.objects || !OwnerAllows(s.objects[id], q.caller, q.strict) then Some(Fault(ObjectNotFound, NotFound))
    else None
  }

  function HandleAdd(s: Store, id: string, q: Request, w: World): (Store, Response) {
    if EditFault(s, id, q).Some? then (s, Failure(EditFault(s, id, q).value))
    else
      var a := s.objects[id].attributes;
      var fault := FirstFault(name => AddFault(a, name), q.attributes);
      if fault.Some? then (s, Failure(fault.value))
      else if exists n :: n in Names(q.attributes) && OddBlank(n) then (s, Failure(Fault(InvalidField, AddFailed)))
      else (WithAttributes(s, id, a + Collect(q.attributes), w.wall), Done(id))
  }

  function HandleModify(s: Store, id: string, q: Request, w: World): (Store, Response) {
    if EditFault(s, id, q).Some? then (s, Failure(EditFault(s, id, q).value))
    else
      var a := s.objects[id].attributes;
      var fault := FirstFault(name => ChangeFault(q.operation, a, name), q.attributes);
      if fault.Some? then (s, Failure(fault.value))
      else (WithAttributes(s, id, a + Collect(q.attributes), w.wall), Done(id))
  }

  function HandleDelete(s: Store, id: string, q: Request, w: World): (Store, Response) {
    if EditFault(s, id, q).Some? then (s, Failure(EditFault(s, id, q).value))
    else
      var a := s.objects[id].attributes;
      var fault := FirstFault(name => ChangeFault(q.operation, a, name), q.attributes);
      if fault.Some? then (s, Failure(fault.value))
      else (WithAttributes(s, id, a - Names(q.attributes), w.wall), Done(id))
  }

  function Derived(id: string, bits: int, caller: Option<string>): Attributes {
    Owned(map[], caller)[LENGTH := Integer(bits)][DERIVED_FROM := TextValue(id)]
  }

  predicate DeriveLength(bits: Option<int>) {
    bits.Some? && bits.value > 0 && bits.value % 8 == 0 && bits.value <= 8192
  }

  /** The bytes the key derivation gives for a request on this key. */
  function Expanded(q: Request, m: bytes, w: World): Option<Stream> {
    w.hkdf(LastBytes(q.attributes, "Salt"), m, LastBytes(q.attributes, "Info"))
  }

  function HandleDerive(s: Store, id: string, q: Request, w: World): (Store, Response) {
    var bits := LastInteger(q.attributes, LENGTH);
    if !DeriveLength(bits) then (s, Failure(Fault(InvalidField, DeriveBadLength)))
    else if id !in s.objects || s.objects[id].state == Destroyed then (s, Failure(Fault(ObjectNotFound, DeriveInputMissing)))
    else if !OwnerAllows(s.objects[id], q.caller, q.strict) then (s, MISSING)
    else if s.objects[id].material.None? || s.objects[id].material.value == [] then
      (s, Failure(Fault(CryptographicFailure, DeriveNoMaterial)))
    else match Expanded(q, s.objects[id].material.value, w)
      case None => (s, Failure(Fault(CryptographicFailure, DeriveExpandFailed)))
      case Some(stream) =>
        (Created(s, Material(stream, bits.value), Derived(id, bits.value, q.caller), w.wall),
         DoneWith(GeneratedId(s.counter), SymmetricKey))
  }

  /** A request that names an object. */
  function HandleNamed(s: Store, id: string, q: Request, w: World): (Store, Response) {
    match q.operation
    case Register => HandleRegister(s, id, q, w)
    case Get => (s, HandleGet(s, id, q))
    case GetAttributes => (s, HandleGetAttributes(s, id, q))
    case Activate => HandleMove(s, id, q, w)
    case Revoke => HandleMove(s, id, q, w)
    case Destroy => HandleMove(s, id, q, w)
    case Check => HandleCheck(s, id, q, w)
    case AddAttribute => HandleAdd(s, id, q, w)
    case ModifyAttribute => HandleModify(s, id, q, w)
    case DeleteAttribute => HandleDelete(s, id, q, w)
    case DeriveKey => HandleDerive(s, id, q, w)
    case _ => (s, DoneBare())
  }

  function Handle(s: Store, q: Request, w: World): (Store, Response) {
    if q.operation == Create then HandleCreate(s, q, w)
    else if q.operation == Locate then (s, HandleLocate(s, q, w))
    else if q.operation == Other then (s, DoneBare())
    else if q.uniqueId.None? then (s, Failure(Fault(InvalidMessage, NeedsId(q.operation))))
    else HandleNamed(s, q.uniqueId.value, q, w)
  }
}
