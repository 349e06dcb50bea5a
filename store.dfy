/** The availability store and its indexes: the map from id to record, the
    ordered id list of each owner, and the email and username lookups. The
    four maps are the fields of one AvailabilityStore object; every operation
    is a method or function on it. The clock is the parameter `now`. */
module Store {
  import opened Types
  import opened Validation
  import opened IdGen
  import opened IdSeq
  import opened Favorites

  /** The field handling of update_availability: each supplied field is
      checked (title, then description, then slots) and applied; the first
      invalid one aborts the update. */
  function ApplyUpdate(a: Availability, req: UpdateRequest, now: nat): (r: Result<Availability>)
    ensures r.Ok? <==>
      && (req.title.Some? ==> ValidTitle(req.title.value))
      && (req.description.Some? ==> ValidDescription(req.description.value))
      && (req.slots.Some? ==> ValidSlotSet(req.slots.value))
    ensures req.title.Some? && !ValidTitle(req.title.value) ==> r == Err(TitleLength)
    ensures (req.title.Some? ==> ValidTitle(req.title.value))
            && req.description.Some? && !ValidDescription(req.description.value)
            ==> r == Err(DescriptionLength)
    ensures (req.title.Some? ==> ValidTitle(req.title.value))
            && (req.description.Some? ==> ValidDescription(req.description.value))
            && req.slots.Some? && ValidateSlotSet(req.slots.value).Err?
            ==> r == Err(ValidateSlotSet(req.slots.value).error)
    ensures r.Ok? ==>
      && r.value.id == a.id && r.value.owner == a.owner && r.value.createdAt == a.createdAt
      && r.value.isFavorite == a.isFavorite && r.value.displayOrder == a.displayOrder
      && r.value.ownerEmail == a.ownerEmail && r.value.ownerName == a.ownerName
      && r.value.busyTimes == a.busyTimes && r.value.updatedAt == now
    ensures r.Ok? ==>
      && r.value.title == req.title.GetOr(a.title)
      && r.value.description == req.description.GetOr(a.description)
      && r.value.slots == req.slots.GetOr(a.slots)
      && r.value.timezone == req.timezone.GetOr(a.timezone)
  {
    if req.title.Some? && !ValidTitle(req.title.value) then Err(TitleLength)
    else if req.description.Some? && !ValidDescription(req.description.value) then Err(DescriptionLength)
    else if req.slots.Some? && ValidateSlotSet(req.slots.value).Err? then
      Err(ValidateSlotSet(req.slots.value).error)
    else
      Ok(a.(title := req.title.GetOr(a.title),
            description := req.description.GetOr(a.description),
            slots := req.slots.GetOr(a.slots),
            timezone := req.timezone.GetOr(a.timezone),
            updatedAt := now))
  }

  // ---------------------------------------------------------------------------
  // Agreement between the store and the owner index
  // ---------------------------------------------------------------------------

  /** Each record sits under its own id and is listed in its owner's list;
      no list repeats an id or names one the store lacks or another owner
      holds. */
  ghost predicate Agrees(store: map<string, Availability>, index: map<Principal, seq<string>>) {
    && (forall x :: x in store ==> store[x].id == x)
    && (forall x :: x in store ==> store[x].owner in index && x in index[store[x].owner])
    && (forall o :: o in index ==> NoDup(index[o]))
    && (forall o, x :: o in index && x in index[o] ==> x in store && store[x].owner == o)
  }

  /** Creation: a record stored under a fresh id and appended to its owner's
      list keeps the agreement. */
  lemma InsertKeepsAgreement(store: map<string, Availability>, index: map<Principal, seq<string>>,
                             a: Availability, ids: seq<string>)
    requires Agrees(store, index) && a.id !in store
    requires ids == if a.owner in index then index[a.owner] else []
    ensures Agrees(store[a.id := a], index[a.owner := ids + [a.id]])
  {
    var store', index' := store[a.id := a], index[a.owner := ids + [a.id]];
    assert a.id !in ids;
    assert NoDup(ids + [a.id]);
    forall o, x | o in index' && x in index'[o] ensures x in store' && store'[x].owner == o {
      if o == a.owner && x != a.id {
        assert x in ids;
      }
    }
  }

  /** Deletion: removing a record and its id from its owner's list keeps the
      agreement. */
  lemma DeleteKeepsAgreement(store: map<string, Availability>, index: map<Principal, seq<string>>,
                             id: string)
    requires Agrees(store, index) && id in store
    ensures store[id].owner in index
    ensures Agrees(store - {id}, index[store[id].owner := RemoveAll(index[store[id].owner], id)])
  {
    var o := store[id].owner;
    var store', index' := store - {id}, index[o := RemoveAll(index[o], id)];
    RemoveAllNoDup(index[o], id);
    forall p, x | p in index' && x in index'[p] ensures x in store' && store'[x].owner == p {
      assert x in index[p];
    }
    forall x | x in store' ensures store'[x].owner in index' && x in index'[store'[x].owner] {
      assert x in index[store[x].owner];
    }
  }

  /** Regeneration: moving a record to a fresh id and writing that id over the
      old one in its owner's list keeps the agreement. */
  lemma MoveKeepsAgreement(store: map<string, Availability>, index: map<Principal, seq<string>>,
                           oldId: string, newId: string, now: nat)
    requires Agrees(store, index) && oldId in store && newId !in store
    ensures store[oldId].owner in index
    ensures Agrees((store - {oldId})[newId := store[oldId].(id := newId, updatedAt := now)],
                   index[store[oldId].owner := ReplaceFirst(index[store[oldId].owner], oldId, newId)])
  {
    var o := store[oldId].owner;
    var store' := (store - {oldId})[newId := store[oldId].(id := newId, updatedAt := now)];
    var index' := index[o := ReplaceFirst(index[o], oldId, newId)];
    assert newId !in index[o];
    ReplaceFirstNoDup(index[o], oldId, newId);
    forall p, x | p in index' && x in index'[p] ensures x in store' && store'[x].owner == p {
      if p != o {
        assert x in index[p];
      }
    }
    forall x | x in store' ensures store'[x].owner in index' && x in index'[store'[x].owner] {
      if x != newId {
        assert x in index[store[x].owner];
      }
    }
  }

  /** Edits in place: a store with the same keys whose records keep their id
      and owner keeps the agreement. */
  lemma EditKeepsAgreement(store: map<string, Availability>, store': map<string, Availability>,
                           index: map<Principal, seq<string>>)
    requires Agrees(store, index) && store'.Keys == store.Keys
    requires forall x :: x in store ==> store'[x].id == store[x].id && store'[x].owner == store[x].owner
    ensures Agrees(store', index)
  {
  }

  /** First pass of set_favorite_availability over the borrowed map: clear
      the favorite flag of every listed record. */
  method ClearFavorites(st: map<string, Availability>, ids: seq<string>, now: nat)
    returns (m: map<string, Availability>)
    ensures m == ClearPass(st, ids, now)
  {
    m := st;
    var i := 0;
    while i < |ids|
      invariant 0 <= i <= |ids|
      invariant m == ClearPass(st, ids[..i], now)
    {
      var x := ids[i];
      assert ids[..i + 1][..i] == ids[..i] && ids[..i + 1][i] == x;
      ClearPassStep(st, ids[..i + 1], now);
      if x in m {
        m := m[x := Cleared(m[x], now)];
      }
      i := i + 1;
    }
    assert ids[..|ids|] == ids;
  }

  /** Third pass: rank the listed stored ids other than the target 1, 2, ...
      in list order; also returns the counter's final value. */
  method RankOthers(st: map<string, Availability>, ids: seq<string>, target: string, now: nat)
    returns (m: map<string, Availability>, order: nat)
    ensures (m, order) == RankPass(st, ids, target, now)
  {
    m, order := st, 1;
    var i := 0;
    while i < |ids|
      invariant 0 <= i <= |ids|
      invariant (m, order) == RankPass(st, ids[..i], target, now)
    {
      var x := ids[i];
      assert ids[..i + 1][..i] == ids[..i] && ids[..i + 1][i] == x;
      RankPassStep(st, ids[..i + 1], target, now);
      if x != target {
        if x in m {
          m := m[x := Ranked(m[x], order, now)];
          order := order + 1;
        }
      }
      i := i + 1;
    }
    assert ids[..|ids|] == ids;
  }

  /** The three passes of set_favorite_availability over the borrowed map:
      clear every listed record's favorite flag, make the target the
      favorite at rank 0, then rank the others. */
  method FavoritePasses(st: map<string, Availability>, ids: seq<string>, id: string, now: nat)
    returns (m: map<string, Availability>)
    requires id in st
    ensures m == SetFavoriteEffect(st, ids, id, now)
  {
    m := ClearFavorites(st, ids, now);
    if id in m {
      m := m[id := Promoted(m[id], now)];
    }
    var order;
    m, order := RankOthers(m, ids, id, now);
  }

  class AvailabilityStore {
    /** AVAILABILITIES: id -> record. */
    var store: map<string, Availability>
    /** USER_AVAILABILITIES: owner -> ids, in creation order. */
    var ownerIndex: map<Principal, seq<string>>
    /** EMAIL_TO_PRINCIPAL: last writer wins, never pruned. */
    var emailIdx: map<string, Principal>
    /** USERNAME_TO_PRINCIPAL: last writer wins, never pruned. */
    var nameIdx: map<string, Principal>

    /** The agreement the operations keep as long as every generated id is
        fresh. */
    ghost predicate Consistent()
      reads this
    {
      Agrees(store, ownerIndex)
    }

    constructor ()
      ensures store == map[] && ownerIndex == map[] && emailIdx == map[] && nameIdx == map[]
      ensures Consistent()
    {
      store, ownerIndex, emailIdx, nameIdx := map[], map[], map[], map[];
    }

    /** An owner's id list; a missing entry reads as empty. */
    function IdsOf(owner: Principal): (ids: seq<string>)
      reads this
      ensures owner !in ownerIndex ==> ids == []
      ensures owner in ownerIndex ==> ids == ownerIndex[owner]
    {
      if owner in ownerIndex then ownerIndex[owner] else []
    }

    // -------------------------------------------------------------------------
    // Reads
    // -------------------------------------------------------------------------

    /** get_availability: public, no ownership check. */
    function GetAvailability(id: string): (r: Result<Availability>)
      reads this
      ensures r.Ok? <==> id in store
      ensures r.Ok? ==> r.value == store[id]
      ensures r.Err? ==> r.error == NotFound
    {
      if id in store then Ok(store[id]) else Err(NotFound)
    }

    /** list_user_availabilities: the stored records of the caller's ids, in
        list order; ids missing from the store are skipped. */
    function ListUserAvailabilities(caller: Principal): (r: seq<Availability>)
      reads this
      ensures caller !in ownerIndex ==> r == []
      ensures |r| <= |IdsOf(caller)|
      ensures forall a :: a in r ==>
        exists k :: 0 <= k < |IdsOf(caller)| && IdsOf(caller)[k] in store && store[IdsOf(caller)[k]] == a
      ensures forall k :: 0 <= k < |IdsOf(caller)| && IdsOf(caller)[k] in store ==>
        store[IdsOf(caller)[k]] in r
    {
      if caller in ownerIndex then Listing(store, ownerIndex[caller]) else []
    }

    /** In a consistent store, listing returns one record per listed id, and
        the records it returns are exactly the caller's. */
    lemma ListIsOwnersRecords(caller: Principal)
      requires Consistent()
      ensures |ListUserAvailabilities(caller)| == |IdsOf(caller)|
      ensures forall a :: a in ListUserAvailabilities(caller) <==> a in store.Values && a.owner == caller
    {
      var ids := IdsOf(caller);
      forall k | 0 <= k < |ids| ensures ids[k] in store { assert ids[k] in ids; }
      if caller in ownerIndex {
        ListingAllStored(store, ids);
      }
      forall a | a in store.Values && a.owner == caller
        ensures a in ListUserAvailabilities(caller)
      {
        var x :| x in store && store[x] == a;
        var k :| 0 <= k < |ids| && ids[k] == x;
      }
    }

    /** search_availabilities_by_principal. */
    function SearchByPrincipal(principal: Principal): (r: seq<Availability>)
      reads this
      ensures principal !in ownerIndex ==> r == []
      ensures Consistent() ==> forall a :: a in r <==> a in store.Values && a.owner == principal
    {
      assert Consistent() ==> forall a :: a in ListUserAvailabilities(principal) <==>
                                a in store.Values && a.owner == principal by {
        if Consistent() { ListIsOwnersRecords(principal); }
      }
      ListUserAvailabilities(principal)
    }

    /** search_availabilities_by_email: the listing of the owner the email
        maps to; an unmapped email yields nothing. */
    function SearchByEmail(email: string): (r: seq<Availability>)
      reads this
      ensures email !in emailIdx ==> r == []
      ensures email in emailIdx ==> r == ListUserAvailabilities(emailIdx[email])
      ensures Consistent() && email in emailIdx ==>
        forall a :: a in r <==> a in store.Values && a.owner == emailIdx[email]
    {
      if email in emailIdx then SearchByPrincipal(emailIdx[email]) else []
    }

    /** search_availabilities_by_username. */
    function SearchByUsername(username: string): (r: seq<Availability>)
      reads this
      ensures username !in nameIdx ==> r == []
      ensures username in nameIdx ==> r == ListUserAvailabilities(nameIdx[username])
      ensures Consistent() && username in nameIdx ==>
        forall a :: a in r <==> a in store.Values && a.owner == nameIdx[username]
    {
      if username in nameIdx then SearchByPrincipal(nameIdx[username]) else []
    }

    /** search_by_emails: one result list per input email, in input order. */
    function SearchByEmails(emails: seq<string>): (r: seq<seq<Availability>>)
      reads this
      ensures |r| == |emails|
      ensures forall k :: 0 <= k < |emails| ==> r[k] == SearchByEmail(emails[k])
    {
      if emails == [] then []
      else [SearchByEmail(emails[0])] + SearchByEmails(emails[1..])
    }

    /** search_by_usernames: one result list per input username, in input order. */
    function SearchByUsernames(usernames: seq<string>): (r: seq<seq<Availability>>)
      reads this
      ensures |r| == |usernames|
      ensures forall k :: 0 <= k < |usernames| ==> r[k] == SearchByUsername(usernames[k])
    {
      if usernames == [] then []
      else [SearchByUsername(usernames[0])] + SearchByUsernames(usernames[1..])
    }

    // -------------------------------------------------------------------------
    // Mutations
    // -------------------------------------------------------------------------

    /** create_availability: validate, rank after the caller's existing
        availabilities (favorite when there are none), store under a generated
        id, append the id to the caller's list, and record the email and
        username when given. */
    method CreateAvailability(caller: Principal, req: CreateRequest, now: nat)
      returns (r: Result<Availability>)
      modifies this
      ensures r.Err? <==> ValidateAvailability(req.title, req.description, req.slots).Err?
      ensures r.Err? ==>
        r.error == ValidateAvailability(req.title, req.description, req.slots).error && unchanged(this)
      ensures r.Ok? ==>
        var id := GenerateAvailabilityId(now, old(store).Keys);
        var order := |old(IdsOf(caller))|;
        && r.value == Availability(id, caller, req.ownerEmail, req.ownerName, req.title, req.description,
                                   req.slots, req.timezone, now, now, req.busyTimes, order == 0, order)
        && store == old(store)[id := r.value]
        && ownerIndex == old(ownerIndex)[caller := old(IdsOf(caller)) + [id]]
        && emailIdx == (if req.ownerEmail.Some? then old(emailIdx)[req.ownerEmail.value := caller]
                        else old(emailIdx))
        && nameIdx == (if req.ownerName.Some? then old(nameIdx)[req.ownerName.value := caller]
                       else old(nameIdx))
      ensures r.Ok? ==> GetAvailability(r.value.id) == Ok(r.value)
      ensures old(Consistent()) && GenerateAvailabilityId(now, old(store).Keys) !in old(store)
              ==> Consistent()
    {
      var v := ValidateAvailability(req.title, req.description, req.slots);
      if v.Err? {
        return Err(v.error);
      }
      ghost var oldStore, oldIndex := store, ownerIndex;
      var ids := IdsOf(caller);
      var order := |ids|;
      var id := GenerateAvailabilityId(now, store.Keys);
      var a := Availability(id, caller, req.ownerEmail, req.ownerName, req.title, req.description,
                            req.slots, req.timezone, now, now, req.busyTimes, order == 0, order);
      store := store[id := a];
      ownerIndex := ownerIndex[caller := ids + [id]];
      if req.ownerEmail.Some? {
        emailIdx := emailIdx[req.ownerEmail.value := caller];
      }
      if req.ownerName.Some? {
        nameIdx := nameIdx[req.ownerName.value := caller];
      }
      r := Ok(a);
      assert Agrees(oldStore, oldIndex) && id !in oldStore ==> Agrees(store, ownerIndex) by {
        if Agrees(oldStore, oldIndex) && id !in oldStore {
          InsertKeepsAgreement(oldStore, oldIndex, a, ids);
        }
      }
    }

    /** update_availability: the record must exist and belong to the caller;
        the supplied fields are validated and applied, the timestamp bumped. */
    method UpdateAvailability(caller: Principal, req: UpdateRequest, now: nat)
      returns (r: Result<Availability>)
      modifies this
      ensures req.id !in old(store) ==> r == Err(NotFound)
      ensures req.id in old(store) && old(store)[req.id].owner != caller ==> r == Err(NotOwner)
      ensures req.id in old(store) && old(store)[req.id].owner == caller ==>
        r == ApplyUpdate(old(store)[req.id], req, now)
      ensures r.Err? ==> unchanged(this)
      ensures r.Ok? ==>
        && store == old(store)[req.id := r.value]
        && ownerIndex == old(ownerIndex) && emailIdx == old(emailIdx) && nameIdx == old(nameIdx)
      ensures old(Consistent()) ==> Consistent()
    {
      if req.id !in store {
        return Err(NotFound);
      }
      var a := store[req.id];
      if a.owner != caller {
        return Err(NotOwner);
      }
      r := ApplyUpdate(a, req, now);
      if r.Ok? {
        ghost var oldStore := store;
        store := store[req.id := r.value];
        assert Agrees(oldStore, ownerIndex) ==> Agrees(store, ownerIndex) by {
          if Agrees(oldStore, ownerIndex) {
            EditKeepsAgreement(oldStore, store, ownerIndex);
          }
        }
      }
    }

    /** update_availability_busy_times: owner only; replaces the busy times
        wholesale and bumps the timestamp. */
    method UpdateBusyTimes(caller: Principal, id: string, busyTimes: seq<BusyTimeBlock>, now: nat)
      returns (r: Result<()>)
      modifies this
      ensures id !in old(store) ==> r == Err(NotFound)
      ensures id in old(store) && old(store)[id].owner != caller ==> r == Err(NotOwner)
      ensures r.Ok? <==> id in old(store) && old(store)[id].owner == caller
      ensures r.Err? ==> unchanged(this)
      ensures r.Ok? ==>
        && store == old(store)[id := old(store)[id].(busyTimes := Some(busyTimes), updatedAt := now)]
        && ownerIndex == old(ownerIndex) && emailIdx == old(emailIdx) && nameIdx == old(nameIdx)
      ensures old(Consistent()) ==> Consistent()
    {
      if id !in store {
        return Err(NotFound);
      }
      var a := store[id];
      if a.owner != caller {
        return Err(NotOwner);
      }
      ghost var oldStore := store;
      store := store[id := a.(busyTimes := Some(busyTimes), updatedAt := now)];
      r := Ok(());
      assert Agrees(oldStore, ownerIndex) ==> Agrees(store, ownerIndex) by {
        if Agrees(oldStore, ownerIndex) {
          EditKeepsAgreement(oldStore, store, ownerIndex);
        }
      }
    }

    /** delete_availability: owner only; removes the record and every
        occurrence of the id from the caller's list. Other records, their
        ranks and favorite flags are left as they are. */
    method DeleteAvailability(caller: Principal, id: string) returns (r: Result<()>)
      modifies this
      ensures id !in old(store) ==> r == Err(NotFound)
      ensures id in old(store) && old(store)[id].owner != caller ==> r == Err(NotOwner)
      ensures r.Ok? <==> id in old(store) && old(store)[id].owner == caller
      ensures r.Err? ==> unchanged(this)
      ensures r.Ok? ==>
        && store == old(store) - {id}
        && ownerIndex == (if caller in old(ownerIndex)
                          then old(ownerIndex)[caller := RemoveAll(old(ownerIndex)[caller], id)]
                          else old(ownerIndex))
        && emailIdx == old(emailIdx) && nameIdx == old(nameIdx)
      ensures r.Ok? ==> GetAvailability(id) == Err(NotFound) && id !in IdsOf(caller)
      ensures old(Consistent()) ==> Consistent()
    {
      if id !in store {
        return Err(NotFound);
      }
      var owner := store[id].owner;
      if owner != caller {
        return Err(NotOwner);
      }
      ghost var oldStore, oldIndex := store, ownerIndex;
      store := store - {id};
      if caller in ownerIndex {
        ownerIndex := ownerIndex[caller := RemoveAll(ownerIndex[caller], id)];
      }
      r := Ok(());
      assert Agrees(oldStore, oldIndex) ==> Agrees(store, ownerIndex) by {
        if Agrees(oldStore, oldIndex) {
          DeleteKeepsAgreement(oldStore, oldIndex, id);
        }
      }
    }

    /** regenerate_availability_id: owner only; moves the record to a newly
        generated id and writes the new id over the first occurrence of the
        old one in the caller's list, so its position and the list length are
        kept. */
    method RegenerateAvailabilityId(caller: Principal, oldId: string, now: nat) returns (r: Result<string>)
      modifies this
      ensures oldId !in old(store) ==> r == Err(NotFound)
      ensures oldId in old(store) && old(store)[oldId].owner != caller ==> r == Err(NotOwner)
      ensures r.Ok? <==> oldId in old(store) && old(store)[oldId].owner == caller
      ensures r.Err? ==> unchanged(this)
      ensures r.Ok? ==>
        var newId := GenerateAvailabilityId(now, old(store).Keys);
        && r.value == newId
        && store == (old(store) - {oldId})[newId := old(store)[oldId].(id := newId, updatedAt := now)]
        && ownerIndex == (if caller in old(ownerIndex)
                          then old(ownerIndex)[caller := ReplaceFirst(old(ownerIndex)[caller], oldId, newId)]
                          else old(ownerIndex))
        && |IdsOf(caller)| == |old(IdsOf(caller))|
        && emailIdx == old(emailIdx) && nameIdx == old(nameIdx)
      ensures r.Ok? ==> GetAvailability(r.value) == Ok(old(store)[oldId].(id := r.value, updatedAt := now))
      ensures r.Ok? && r.value != oldId ==> GetAvailability(oldId) == Err(NotFound)
      ensures old(Consistent()) && GenerateAvailabilityId(now, old(store).Keys) !in old(store)
              ==> Consistent()
    {
      if oldId !in store {
        return Err(NotFound);
      }
      var a := store[oldId];
      if a.owner != caller {
        return Err(NotOwner);
      }
      ghost var oldStore, oldIndex := store, ownerIndex;
      var newId := GenerateAvailabilityId(now, store.Keys);
      store := (store - {oldId})[newId := a.(id := newId, updatedAt := now)];
      if caller in ownerIndex {
        ownerIndex := ownerIndex[caller := ReplaceFirst(ownerIndex[caller], oldId, newId)];
      }
      r := Ok(newId);
      assert Agrees(oldStore, oldIndex) && newId !in oldStore ==> Agrees(store, ownerIndex) by {
        if Agrees(oldStore, oldIndex) && newId !in oldStore {
          MoveKeepsAgreement(oldStore, oldIndex, oldId, newId, now);
        }
      }
    }

    /** set_favorite_availability: owner only, and only when the caller's list
        is non-empty. Three passes over the caller's list: clear every
        favorite flag, make the target the favorite at rank 0, then rank the
        other stored ids 1, 2, ... in list order. */
    method SetFavoriteAvailability(caller: Principal, id: string, now: nat) returns (r: Result<()>)
      modifies this
      ensures id !in old(store) ==> r == Err(NotFound)
      ensures id in old(store) && old(store)[id].owner != caller ==> r == Err(NotOwner)
      ensures id in old(store) && old(store)[id].owner == caller && old(IdsOf(caller)) == [] ==>
        r == Err(NoAvailabilities)
      ensures r.Ok? <==> id in old(store) && old(store)[id].owner == caller && old(IdsOf(caller)) != []
      ensures r.Err? ==> unchanged(this)
      ensures r.Ok? ==>
        && store == SetFavoriteEffect(old(store), old(IdsOf(caller)), id, now)
        && ownerIndex == old(ownerIndex) && emailIdx == old(emailIdx) && nameIdx == old(nameIdx)
      ensures r.Ok? ==> store[id] == Promoted(old(store)[id], now)
      ensures r.Ok? ==> forall x :: x in old(IdsOf(caller)) && x in store && x != id ==> !store[x].isFavorite
      ensures old(Consistent()) ==> Consistent()
    {
      if id !in store {
        return Err(NotFound);
      }
      if store[id].owner != caller {
        return Err(NotOwner);
      }
      var ids := IdsOf(caller);
      if ids == [] {
        return Err(NoAvailabilities);
      }
      var st := store;
      var m := FavoritePasses(st, ids, id, now);
      assert m[id] == Promoted(st[id], now) && forall x :: x in ids && x in m && x != id ==> !m[x].isFavorite by {
        SetFavoriteTouchesOnlyRanking(st, ids, id, now);
      }
      assert Agrees(st, ownerIndex) ==> Agrees(m, ownerIndex) by {
        if Agrees(st, ownerIndex) {
          SetFavoriteTouchesOnlyRanking(st, ids, id, now);
          EditKeepsAgreement(st, m, ownerIndex);
        }
      }
      store := m;
      r := Ok(());
    }
  }
}
