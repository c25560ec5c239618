/** The client registry: registration with an email uniqueness check and a
    VIP classification, reads, partial update with a conditional VIP re-check,
    an explicit VIP refresh, and hard delete. The classifier's remote reply and
    random draw for the call, and the current instant, are parameters. */
module ClientsService {
  import opened Common
  import opened ClientEntity
  import opened VipCheck

  /** All stored clients, keyed by client id. */
  type Registry = map<ClientId, Client>

  /** The body of a registration request. */
  datatype CreateClientRequest = CreateClientRequest(firstName: string, lastName: string, email: string, phone: string)

  /** Some stored client already uses `email` (exact, case-sensitive match). */
  predicate EmailTaken(registry: Registry, email: string) {
    exists id | id in registry :: registry[id].email == email
  }

  /** No two stored clients share an email. */
  predicate UniqueEmails(registry: Registry) {
    forall i, j | i in registry && j in registry && i != j :: registry[i].email != registry[j].email
  }

  /** Registers a client under `newId`, the fresh id the store generates.
      The check date is recorded only when the classifier says VIP. */
  function Create(
    registry: Registry, req: CreateClientRequest, newId: ClientId,
    now: Instant, reply: RemoteReply, heads: bool
  ): (r: Result<Registry>)
    requires newId !in registry
    ensures r.Err? <==> EmailTaken(registry, req.email)
    ensures r.Err? ==> r.failure == DuplicateEmail && KindOf(r.failure) == Conflict
    ensures r.Ok? ==> r.value.Keys == registry.Keys + {newId}
    ensures r.Ok? ==> forall id | id in registry :: r.value[id] == registry[id]
    ensures r.Ok? ==>
      var c := r.value[newId];
      && c.firstName == req.firstName
      && c.lastName == req.lastName
      && c.email == req.email
      && c.phone == req.phone
      && c.isVip == CheckVipStatus(req.email, reply, heads).isVip
      && (c.vipCheckDate.Some? <==> c.isVip)
      && (c.vipCheckDate.Some? ==> c.vipCheckDate.value == now)
  {
    if EmailTaken(registry, req.email) then Err(DuplicateEmail)
    else
      var vip := CheckVipStatus(req.email, reply, heads);
      var client := Client(req.firstName, req.lastName, req.email, req.phone, vip.isVip,
        if vip.isVip then Some(now) else None);
      Ok(registry[newId := client])
  }

  /** Reads one client. */
  function FindOne(registry: Registry, id: ClientId): (r: Result<Client>)
    ensures r.Ok? <==> id in registry
    ensures r.Ok? ==> r.value == registry[id]
    ensures r.Err? ==> r.failure == ClientNotFound
  {
    if id in registry then Ok(registry[id]) else Err(ClientNotFound)
  }

  /** The fields a client update may carry; `None` means not sent. */
  datatype ClientPatch = ClientPatch(
    firstName: Option<string>,
    lastName: Option<string>,
    email: Option<string>,
    phone: Option<string>
  )

  /** An update re-classifies only for a non-empty email that differs from the
      stored one. */
  predicate RechecksVip(c: Client, patch: ClientPatch) {
    patch.email.Some? && patch.email.value != "" && patch.email.value != c.email
  }

  /** Overwrites the sent fields. A re-check sets the VIP flag from the
      classifier but stamps the check date only when the answer is VIP;
      otherwise the old date stays. The email is not checked for uniqueness. */
  function Update(
    registry: Registry, id: ClientId, patch: ClientPatch,
    now: Instant, reply: RemoteReply, heads: bool
  ): (r: Result<Registry>)
    ensures r.Err? <==> id !in registry
    ensures r.Err? ==> r.failure == ClientNotFound
    ensures r.Ok? ==> r.value.Keys == registry.Keys
    ensures r.Ok? ==> forall other | other in registry && other != id :: r.value[other] == registry[other]
    ensures r.Ok? ==>
      var before := registry[id];
      var after := r.value[id];
      && after.firstName == patch.firstName.GetOr(before.firstName)
      && after.lastName == patch.lastName.GetOr(before.lastName)
      && after.email == patch.email.GetOr(before.email)
      && after.phone == patch.phone.GetOr(before.phone)
      && (RechecksVip(before, patch) ==>
            && after.isVip == CheckVipStatus(patch.email.value, reply, heads).isVip
            && after.vipCheckDate == (if after.isVip then Some(now) else before.vipCheckDate))
      && (!RechecksVip(before, patch) ==>
            after.isVip == before.isVip && after.vipCheckDate == before.vipCheckDate)
  {
    match FindOne(registry, id)
    case Err(f) => Err(f)
    case Ok(client) =>
      var rechecked :=
        if RechecksVip(client, patch) then
          var vip := CheckVipStatus(patch.email.value, reply, heads);
          client.(isVip := vip.isVip, vipCheckDate := if vip.isVip then Some(now) else client.vipCheckDate)
        else client;
      var updated := rechecked.(
        firstName := patch.firstName.GetOr(client.firstName),
        lastName := patch.lastName.GetOr(client.lastName),
        email := patch.email.GetOr(client.email),
        phone := patch.phone.GetOr(client.phone));
      Ok(registry[id := updated])
  }

  /** A client just registered reads back with the request's fields and the
      classifier's verdict. */
  lemma CreateThenFindOne(
    registry: Registry, req: CreateClientRequest, newId: ClientId,
    now: Instant, reply: RemoteReply, heads: bool)
    requires newId !in registry
    requires Create(registry, req, newId, now, reply, heads).Ok?
    ensures
      var vip := CheckVipStatus(req.email, reply, heads).isVip;
      FindOne(Create(registry, req, newId, now, reply, heads).value, newId)
        == Ok(Client(req.firstName, req.lastName, req.email, req.phone, vip, if vip then Some(now) else None))
  {
  }

  /** Deletes a client outright. */
  function Remove(registry: Registry, id: ClientId): (r: Result<Registry>)
    ensures r.Err? <==> id !in registry
    ensures r.Err? ==> r.failure == ClientNotFound
    ensures r.Ok? ==> r.value.Keys == registry.Keys - {id}
    ensures r.Ok? ==> forall other | other in r.value :: r.value[other] == registry[other]
  {
    if id in registry then Ok(registry - {id}) else Err(ClientNotFound)
  }

  /** A deleted client no longer reads; every other client reads as before. */
  lemma RemoveThenFindOne(registry: Registry, id: ClientId, other: ClientId)
    requires Remove(registry, id).Ok?
    ensures FindOne(Remove(registry, id).value, id) == Err(ClientNotFound)
    ensures other != id ==> FindOne(Remove(registry, id).value, other) == FindOne(registry, other)
  {
  }

  /** Re-classifies the stored email and stamps the check date whatever the
      answer. Nothing else changes. */
  function RefreshVipStatus(
    registry: Registry, id: ClientId, now: Instant, reply: RemoteReply, heads: bool
  ): (r: Result<Registry>)
    ensures r.Err? <==> id !in registry
    ensures r.Err? ==> r.failure == ClientNotFound
    ensures r.Ok? ==> r.value.Keys == registry.Keys
    ensures r.Ok? ==> forall other | other in registry && other != id :: r.value[other] == registry[other]
    ensures r.Ok? ==>
      var before := registry[id];
      var after := r.value[id];
      && after.isVip == CheckVipStatus(before.email, reply, heads).isVip
      && after.vipCheckDate == Some(now)
      && after == before.(isVip := after.isVip, vipCheckDate := after.vipCheckDate)
  {
    match FindOne(registry, id)
    case Err(f) => Err(f)
    case Ok(client) =>
      var vip := CheckVipStatus(client.email, reply, heads);
      Ok(registry[id := client.(isVip := vip.isVip, vipCheckDate := Some(now))])
  }

  lemma CreatePreservesUniqueEmails(
    registry: Registry, req: CreateClientRequest, newId: ClientId,
    now: Instant, reply: RemoteReply, heads: bool)
    requires newId !in registry
    requires UniqueEmails(registry)
    requires Create(registry, req, newId, now, reply, heads).Ok?
    ensures UniqueEmails(Create(registry, req, newId, now, reply, heads).value)
  {
  }

  lemma RefreshPreservesUniqueEmails(registry: Registry, id: ClientId, now: Instant, reply: RemoteReply, heads: bool)
    requires UniqueEmails(registry)
    requires RefreshVipStatus(registry, id, now, reply, heads).Ok?
    ensures UniqueEmails(RefreshVipStatus(registry, id, now, reply, heads).value)
  {
  }

  lemma RemovePreservesUniqueEmails(registry: Registry, id: ClientId)
    requires UniqueEmails(registry)
    requires Remove(registry, id).Ok?
    ensures UniqueEmails(Remove(registry, id).value)
  {
  }

  /** The registry of the duplicate-email example: two clients with
      different emails. */
  function DuplicateRegistry(): Registry {
    map[
      "a" := Client("Ann", "Lee", "ann@example.com", "+1", false, None),
      "b" := Client("Bob", "Ray", "bob@example.com", "+2", false, None)]
  }

  /** Update does not look for the new email among other clients, so the
      registry alone does not keep emails unique; only the store's unique
      column would refuse the write. */
  lemma UpdateCanDuplicateEmail()
    ensures
      var r := Update(DuplicateRegistry(), "b", ClientPatch(None, None, Some("ann@example.com"), None), 0, RemoteAnswered(None, None, None), false);
      UniqueEmails(DuplicateRegistry()) && r.Ok? && !UniqueEmails(r.value)
  {
    var registry := DuplicateRegistry();
    var r := Update(registry, "b", ClientPatch(None, None, Some("ann@example.com"), None), 0, RemoteAnswered(None, None, None), false);
    assert "ann@example.com"[0] != "bob@example.com"[0];
    assert UniqueEmails(registry);
    assert RechecksVip(registry["b"], ClientPatch(None, None, Some("ann@example.com"), None));
    assert r.value["a"].email == r.value["b"].email;
  }

  /** Registration and refresh disagree on the check date for a non-VIP:
      registration leaves it unset, refresh stamps it. */
  lemma RefreshStampsNonVip(
    registry: Registry, req: CreateClientRequest, newId: ClientId,
    created: Instant, refreshed: Instant, reply: RemoteReply, heads: bool)
    requires newId !in registry
    requires Create(registry, req, newId, created, reply, heads).Ok?
    requires !CheckVipStatus(req.email, reply, heads).isVip
    ensures Create(registry, req, newId, created, reply, heads).value[newId].vipCheckDate == None
    ensures
      var after := RefreshVipStatus(Create(registry, req, newId, created, reply, heads).value, newId, refreshed, reply, heads);
      after.Ok? && !after.value[newId].isVip && after.value[newId].vipCheckDate == Some(refreshed)
  {
  }
}
