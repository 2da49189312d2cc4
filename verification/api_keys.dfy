/** The API-key registry used for service-to-service authentication: keys
    are stored only as hashes, can be revoked (kept, but inactive) or deleted,
    and are validated by hashing the presented raw key. The key generator and
    the hash function live outside this model: the generated raw key is an
    argument, and the hash is a function argument. */
module ApiKeys {
  import opened Results
  import Seqs

  datatype ApiKey = ApiKey(
    id: int,
    keyHash: string,
    serviceName: string,
    canWrite: bool,
    canRead: bool,
    isActive: bool,
    createdBy: Option<string>,
    createdAt: int)

  /** The `apiKey` table and its autoincrement counter. */
  datatype Registry = Registry(keys: seq<ApiKey>, nextId: int)

  /** The `select` of the admin read paths: everything but the hash. */
  datatype ApiKeyView = ApiKeyView(
    id: int,
    serviceName: string,
    canWrite: bool,
    canRead: bool,
    isActive: bool,
    createdAt: int,
    createdBy: Option<string>)

  function View(k: ApiKey): (v: ApiKeyView)
    ensures v.id == k.id && v.serviceName == k.serviceName && v.isActive == k.isActive
    ensures v.canWrite == k.canWrite && v.canRead == k.canRead
    ensures v.createdAt == k.createdAt && v.createdBy == k.createdBy
  {
    ApiKeyView(k.id, k.serviceName, k.canWrite, k.canRead, k.isActive, k.createdAt, k.createdBy)
  }

  /** What the table's unique indexes and the counter guarantee. */
  ghost predicate Valid(reg: Registry) {
    && (forall i, j :: 0 <= i < j < |reg.keys| ==> reg.keys[i].id != reg.keys[j].id)
    && (forall i, j :: 0 <= i < j < |reg.keys| ==> reg.keys[i].keyHash != reg.keys[j].keyHash)
    && (forall i :: 0 <= i < |reg.keys| ==> reg.keys[i].id < reg.nextId)
  }

  ghost predicate Injective(hash: string -> string) {
    forall a, b :: hash(a) == hash(b) ==> a == b
  }

  /** The first key stored under hash `h` (`findUnique({ where: { keyHash } })`). */
  function FindByHash(keys: seq<ApiKey>, h: string): (r: Option<nat>)
    ensures r.Some? ==> r.value < |keys| && keys[r.value].keyHash == h
    ensures r.Some? ==> forall j :: 0 <= j < r.value ==> keys[j].keyHash != h
    ensures r.None? <==> forall j :: 0 <= j < |keys| ==> keys[j].keyHash != h
  {
    if |keys| == 0 then None
    else if keys[0].keyHash == h then Some(0)
    else
      match FindByHash(keys[1..], h)
      case None => None
      case Some(i) => Some(i + 1)
  }

  /** The first key with id `id` (`findUnique({ where: { id } })`). */
  function FindById(keys: seq<ApiKey>, id: int): (r: Option<nat>)
    ensures r.Some? ==> r.value < |keys| && keys[r.value].id == id
    ensures r.Some? ==> forall j :: 0 <= j < r.value ==> keys[j].id != id
    ensures r.None? <==> forall j :: 0 <= j < |keys| ==> keys[j].id != id
  {
    if |keys| == 0 then None
    else if keys[0].id == id then Some(0)
    else
      match FindById(keys[1..], id)
      case None => None
      case Some(i) => Some(i + 1)
  }

  datatype CreateApiKeyInput = CreateApiKeyInput(
    serviceName: string,
    canWrite: Option<bool>,
    canRead: Option<bool>,
    createdBy: Option<string>)

  /** What `createApiKey` hands back: the raw key, this once only. */
  datatype Created = Created(id: int, rawKey: string, serviceName: string)

  function OrTrue(b: Option<bool>): bool {
    if b.Some? then b.value else true
  }

  /** `createApiKey` with `rawKey` from the generator, at time `now`. The
      stored row holds the hash, never the raw key; both permissions default
      to true; the key starts active. A hash already stored violates the
      unique index and the create fails. */
  function CreateApiKey(reg: Registry, input: CreateApiKeyInput, rawKey: string, hash: string -> string, now: int): (r: Result<(Registry, Created), string>)
    ensures r.Failure? <==> exists i :: 0 <= i < |reg.keys| && reg.keys[i].keyHash == hash(rawKey)
    ensures r.Success? ==>
      var (reg', created) := r.value;
      && created == Created(reg.nextId, rawKey, input.serviceName)
      && reg'.nextId > reg.nextId
      && |reg'.keys| == |reg.keys| + 1
      && reg'.keys[..|reg.keys|] == reg.keys
      && var k := reg'.keys[|reg.keys|];
      && k.id == reg.nextId && k.keyHash == hash(rawKey) && k.serviceName == input.serviceName
      && k.isActive && k.createdBy == input.createdBy && k.createdAt == now
      && (input.canWrite.None? ==> k.canWrite) && (input.canWrite.Some? ==> k.canWrite == input.canWrite.value)
      && (input.canRead.None? ==> k.canRead) && (input.canRead.Some? ==> k.canRead == input.canRead.value)
  {
    var keyHash := hash(rawKey);
    if FindByHash(reg.keys, keyHash).Some? then
      Failure("Unique constraint failed on the fields: (`keyHash`)")
    else
      var k := ApiKey(reg.nextId, keyHash, input.serviceName, OrTrue(input.canWrite),
                      OrTrue(input.canRead), true, input.createdBy, now);
      Success((Registry(reg.keys + [k], reg.nextId + 1), Created(k.id, rawKey, k.serviceName)))
  }

  lemma CreateKeepsValid(reg: Registry, input: CreateApiKeyInput, rawKey: string, hash: string -> string, now: int)
    requires Valid(reg)
    ensures var r := CreateApiKey(reg, input, rawKey, hash, now);
      r.Success? ==> Valid(r.value.0)
  {
  }

  datatype Validation =
    | Accepted(id: int, serviceName: string, canWrite: bool, canRead: bool)
    | Rejected(error: string)

  const NotFound := "API key not found"
  const Revoked := "API key has been revoked"
  const ValidationFailed := "Validation failed"

  /** `validateApiKey`: hash the raw key, look it up, and accept it only
      when it is stored and active. A failing lookup is reported as a
      rejection, never as an error. */
  function ValidateApiKey(reg: Registry, rawKey: string, hash: string -> string, lookupFails: bool): (r: Validation)
    ensures lookupFails ==> r == Rejected(ValidationFailed)
    ensures !lookupFails && (forall i :: 0 <= i < |reg.keys| ==> reg.keys[i].keyHash != hash(rawKey)) ==>
      r == Rejected(NotFound)
    ensures !lookupFails ==> forall i ::
      (0 <= i < |reg.keys| && reg.keys[i].keyHash == hash(rawKey)
       && forall j :: 0 <= j < i ==> reg.keys[j].keyHash != hash(rawKey)) ==>
      (r == if reg.keys[i].isActive
            then Accepted(reg.keys[i].id, reg.keys[i].serviceName, reg.keys[i].canWrite, reg.keys[i].canRead)
            else Rejected(Revoked))
  {
    if lookupFails then Rejected(ValidationFailed)
    else
      match FindByHash(reg.keys, hash(rawKey))
      case None => Rejected(NotFound)
      case Some(i) =>
        var k := reg.keys[i];
        if !k.isActive then Rejected(Revoked)
        else Accepted(k.id, k.serviceName, k.canWrite, k.canRead)
  }

  /** With unique hashes, the key a raw key validates against is the one
      stored under its hash, wherever it sits in the table. */
  lemma ValidateStoredKey(reg: Registry, i: int, rawKey: string, hash: string -> string)
    requires Valid(reg) && 0 <= i < |reg.keys| && reg.keys[i].keyHash == hash(rawKey)
    ensures var k := reg.keys[i];
      ValidateApiKey(reg, rawKey, hash, false) ==
        if k.isActive then Accepted(k.id, k.serviceName, k.canWrite, k.canRead) else Rejected(Revoked)
  {
  }

  /** A freshly created key validates, with the permissions it was created
      with; with an injective hash, no other raw key validates against it. */
  lemma CreateThenValidate(reg: Registry, input: CreateApiKeyInput, rawKey: string, other: string, hash: string -> string, now: int)
    requires Valid(reg)
    requires CreateApiKey(reg, input, rawKey, hash, now).Success?
    ensures var (reg', created) := CreateApiKey(reg, input, rawKey, hash, now).value;
      && ValidateApiKey(reg', rawKey, hash, false) ==
           Accepted(created.id, input.serviceName, OrTrue(input.canWrite), OrTrue(input.canRead))
      && (Injective(hash) && other != rawKey ==>
           ValidateApiKey(reg', other, hash, false) != ValidateApiKey(reg', rawKey, hash, false))
  {
    var (reg', created) := CreateApiKey(reg, input, rawKey, hash, now).value;
    var n := |reg.keys|;
    CreateKeepsValid(reg, input, rawKey, hash, now);
    ValidateStoredKey(reg', n, rawKey, hash);
    if Injective(hash) && other != rawKey {
      assert hash(other) != hash(rawKey);
      match FindByHash(reg'.keys, hash(other))
      case None =>
      case Some(j) =>
        assert j != n;
        assert reg'.keys[j].id < reg.nextId by {
          assert reg'.keys[j] == reg.keys[j];
        }
    }
  }

  /** `revokeApiKey`: clears `isActive` on that key and changes nothing
      else; updating an id that is not stored fails. */
  function RevokeApiKey(reg: Registry, id: int): (r: Result<Registry, string>)
    ensures r.Failure? <==> forall i :: 0 <= i < |reg.keys| ==> reg.keys[i].id != id
    ensures r.Success? ==>
      && r.value.nextId == reg.nextId
      && |r.value.keys| == |reg.keys|
      && exists i :: 0 <= i < |reg.keys| && reg.keys[i].id == id
           && r.value.keys == reg.keys[i := reg.keys[i].(isActive := false)]
  {
    match FindById(reg.keys, id)
    case None => Failure("Record to update not found.")
    case Some(i) => Success(reg.(keys := reg.keys[i := reg.keys[i].(isActive := false)]))
  }

  lemma RevokeKeepsValid(reg: Registry, id: int)
    requires Valid(reg)
    ensures RevokeApiKey(reg, id).Success? ==> Valid(RevokeApiKey(reg, id).value)
  {
  }

  /** Once revoked, a key is reported as revoked rather than not found. */
  lemma RevokeThenValidate(reg: Registry, i: int, rawKey: string, hash: string -> string)
    requires Valid(reg) && 0 <= i < |reg.keys| && reg.keys[i].keyHash == hash(rawKey)
    ensures RevokeApiKey(reg, reg.keys[i].id).Success?
    ensures ValidateApiKey(RevokeApiKey(reg, reg.keys[i].id).value, rawKey, hash, false) == Rejected(Revoked)
  {
    var reg' := RevokeApiKey(reg, reg.keys[i].id).value;
    var j :| 0 <= j < |reg.keys| && reg.keys[j].id == reg.keys[i].id
      && reg'.keys == reg.keys[j := reg.keys[j].(isActive := false)];
    assert j == i;
    RevokeKeepsValid(reg, reg.keys[i].id);
    ValidateStoredKey(reg', i, rawKey, hash);
  }

  function NotId(id: int): ApiKey -> bool {
    (k: ApiKey) => k.id != id
  }

  /** `deleteApiKey`: removes the key with that id; deleting an id that is
      not stored fails. */
  function DeleteApiKey(reg: Registry, id: int): (r: Result<Registry, string>)
    ensures r.Failure? <==> forall i :: 0 <= i < |reg.keys| ==> reg.keys[i].id != id
    ensures r.Success? ==> r.value.nextId == reg.nextId && |r.value.keys| < |reg.keys|
    ensures r.Success? ==> forall k :: k in r.value.keys <==> k in reg.keys && k.id != id
  {
    match FindById(reg.keys, id)
    case None => Failure("Record to delete does not exist.")
    case Some(i) =>
      Seqs.FilterDrops(reg.keys, NotId(id), i);
      Success(reg.(keys := Seqs.Filter(reg.keys, NotId(id))))
  }

  predicate HashesDiffer(a: ApiKey, b: ApiKey) {
    a.keyHash != b.keyHash
  }

  predicate IdsDiffer(a: ApiKey, b: ApiKey) {
    a.id != b.id
  }

  lemma DeleteKeepsValid(reg: Registry, id: int)
    requires Valid(reg)
    ensures DeleteApiKey(reg, id).Success? ==> Valid(DeleteApiKey(reg, id).value)
  {
    if DeleteApiKey(reg, id).Success? {
      var ks := Seqs.Filter(reg.keys, NotId(id));
      Seqs.FilterPairwise(reg.keys, NotId(id), HashesDiffer);
      Seqs.FilterPairwise(reg.keys, NotId(id), IdsDiffer);
      forall i, j | 0 <= i < j < |ks|
        ensures ks[i].id != ks[j].id && ks[i].keyHash != ks[j].keyHash
      {
        assert HashesDiffer(ks[i], ks[j]) && IdsDiffer(ks[i], ks[j]);
      }
      forall i | 0 <= i < |ks|
        ensures ks[i].id < reg.nextId
      {
        assert ks[i] in reg.keys;
      }
    }
  }

  /** After a key is deleted, its raw key is no longer found at all. */
  lemma DeleteThenValidate(reg: Registry, i: int, rawKey: string, hash: string -> string)
    requires Valid(reg) && 0 <= i < |reg.keys| && reg.keys[i].keyHash == hash(rawKey)
    ensures DeleteApiKey(reg, reg.keys[i].id).Success?
    ensures ValidateApiKey(DeleteApiKey(reg, reg.keys[i].id).value, rawKey, hash, false) == Rejected(NotFound)
  {
    var reg' := DeleteApiKey(reg, reg.keys[i].id).value;
    forall j | 0 <= j < |reg'.keys|
      ensures reg'.keys[j].keyHash != hash(rawKey)
    {
      var k := reg'.keys[j];
      assert k in reg.keys && k.id != reg.keys[i].id;
      var m :| 0 <= m < |reg.keys| && reg.keys[m] == k;
      assert m != i;
    }
  }

  /** `getApiKeyById`: the stored key without its hash, or nothing. */
  function GetApiKeyById(reg: Registry, id: int): (r: Option<ApiKeyView>)
    ensures r.None? <==> forall i :: 0 <= i < |reg.keys| ==> reg.keys[i].id != id
    ensures r.Some? ==> r.value.id == id && exists i :: 0 <= i < |reg.keys| && r.value == View(reg.keys[i])
  {
    match FindById(reg.keys, id)
    case None => None
    case Some(i) => Some(View(reg.keys[i]))
  }

  /** Revoking is visible through the admin read path: the same key, now
      inactive, with every other field as before. */
  lemma RevokeThenGet(reg: Registry, i: int)
    requires Valid(reg) && 0 <= i < |reg.keys|
    ensures var id := reg.keys[i].id;
      GetApiKeyById(RevokeApiKey(reg, id).value, id) == Some(View(reg.keys[i]).(isActive := false))
  {
    var id := reg.keys[i].id;
    var reg' := RevokeApiKey(reg, id).value;
    var j :| 0 <= j < |reg.keys| && reg.keys[j].id == id
      && reg'.keys == reg.keys[j := reg.keys[j].(isActive := false)];
    assert j == i;
    assert reg'.keys[i].id == id;

  }

  function Views(keys: seq<ApiKey>): (r: seq<ApiKeyView>)
    ensures |r| == |keys|
    ensures forall i :: 0 <= i < |keys| ==> r[i] == View(keys[i])
  {
    seq(|keys|, i requires 0 <= i < |keys| => View(keys[i]))
  }

  function Age(v: ApiKeyView): int {
    -v.createdAt
  }

  /** `listApiKeys`: every key, without its hash, newest first. */
  function ListApiKeys(reg: Registry): (r: seq<ApiKeyView>)
    ensures |r| == |reg.keys|
    ensures multiset(r) == multiset(Views(reg.keys))
    ensures forall i, j :: 0 <= i < j < |r| ==> r[i].createdAt >= r[j].createdAt
  {
    var r := Seqs.SortBy(Views(reg.keys), Age);
    assert forall i, j :: 0 <= i < j < |r| ==> Age(r[i]) <= Age(r[j]);
    r
  }

  /** The list and the single-key read agree: every stored key appears in
      the list exactly as `getApiKeyById` shows it. */
  lemma ListedAsFetched(reg: Registry, id: int)
    requires Valid(reg)
    ensures GetApiKeyById(reg, id).Some? <==> exists v :: v in ListApiKeys(reg) && v.id == id
    ensures GetApiKeyById(reg, id).Some? ==> GetApiKeyById(reg, id).value in ListApiKeys(reg)
  {
    var list := ListApiKeys(reg);
    Seqs.SameMembers(list, Views(reg.keys));
    var g := GetApiKeyById(reg, id);
    if g.Some? {
      var i :| 0 <= i < |reg.keys| && g.value == View(reg.keys[i]);
      assert Views(reg.keys)[i] == g.value;
    } else {
      forall v | v in list
        ensures v.id != id
      {
        var i :| 0 <= i < |reg.keys| && Views(reg.keys)[i] == v;
      }
    }
  }
}
