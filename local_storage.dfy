/** The browser-storage data layer of hackpub. One `Store` object stands for
    the page's `localStorage`: the `hackathons` table, the
    `userParticipations` index, the `currentUser` slot, and the `user` slot
    that the sign-up/sign-out flow writes and the join step reads.
    `available` is false where no browser window exists (server rendering):
    then every reader returns its empty default and every mutator returns
    without touching anything. JSON encoding is taken as the identity. */
module LocalStorage {
  import opened Types
  import opened HackathonList
  import ParticipationIndex
  import opened ParticipantsMirror

  class Store {
    var available: bool
    var hackathons: seq<Hackathon>
    var participations: ParticipationIndex.Index
    var currentUser: Option<User>
    var authUser: Option<User>

    /** A storage with nothing written yet. */
    constructor (available: bool)
      ensures this.available == available
      ensures hackathons == [] && participations == map[]
      ensures currentUser == None && authUser == None
      ensures ParticipationIndex.Valid(participations)
    {
      this.available := available;
      hackathons := [];
      participations := map[];
      currentUser := None;
      authUser := None;
    }

    /** `getHackathons`: the stored list in insertion order, `[]` without a window. */
    function GetHackathons(): (r: seq<Hackathon>)
      reads this
      ensures !available ==> r == []
      ensures available ==> r == hackathons
    {
      if available then hackathons else []
    }

    /** `getHackathonById`: the first stored record with `id`, or nothing. */
    function GetHackathonById(id: string): (r: Option<Hackathon>)
      reads this
      ensures r.Some? ==> available && r.value.id == id
      ensures r.None? <==> !available || forall j :: 0 <= j < |hackathons| ==> hackathons[j].id != id
      ensures r.Some? ==>
        exists i :: 0 <= i < |hackathons| && hackathons[i] == r.value && forall j :: 0 <= j < i ==> hackathons[j].id != id
    {
      Find(GetHackathons(), id)
    }

    /** `getCurrentUser`. */
    function GetCurrentUser(): (r: Option<User>)
      reads this
      ensures !available ==> r == None
      ensures available ==> r == currentUser
    {
      if available then currentUser else None
    }

    /** `getUserParticipations`: the user's joined hackathon ids, `[]` when
        the user has no entry or there is no window. */
    function GetUserParticipations(userId: string): (r: seq<string>)
      reads this
      ensures !available ==> r == []
      ensures available && userId !in participations ==> r == []
      ensures available && userId in participations ==> r == participations[userId]
    {
      if available then ParticipationIndex.Lookup(participations, userId) else []
    }

    /** `hasUserParticipated`. */
    function HasUserParticipated(userId: string, hackathonId: string): (b: bool)
      reads this
      ensures b <==> available && userId in participations && hackathonId in participations[userId]
    {
      available && ParticipationIndex.Has(participations, userId, hackathonId)
    }

    /** `addHackathon`: append `h` to the table, with no check on its id. */
    method AddHackathon(h: Hackathon)
      modifies this
      ensures available == old(available) && participations == old(participations)
      ensures currentUser == old(currentUser) && authUser == old(authUser)
      ensures hackathons == if available then old(hackathons) + [h] else old(hackathons)
      ensures available ==> |hackathons| == |old(hackathons)| + 1
      ensures available && (forall j :: 0 <= j < |old(hackathons)| ==> old(hackathons)[j].id != h.id) ==>
        GetHackathonById(h.id) == Some(h)
    {
      if !available {
        return;
      }
      var list := GetHackathons();
      list := list + [h];
      hackathons := list;
      AppendThenFindOwnId(old(hackathons), h);
    }

    /** `updateHackathon`: overwrite the first record whose id is `h.id`;
        when no record has it, nothing is written. */
    method UpdateHackathon(h: Hackathon)
      modifies this
      ensures available == old(available) && participations == old(participations)
      ensures currentUser == old(currentUser) && authUser == old(authUser)
      ensures hackathons == if available then ReplaceFirst(old(hackathons), h) else old(hackathons)
      ensures |hackathons| == |old(hackathons)|
      ensures old(GetHackathonById(h.id)).None? ==> hackathons == old(hackathons)
      ensures old(GetHackathonById(h.id)).Some? ==> GetHackathonById(h.id) == Some(h)
    {
      if !available {
        return;
      }
      var list := GetHackathons();
      var index := FirstIndex(list, h.id);
      if index.Some? {
        list := list[index.value := h];
        hackathons := list;
      }
      FindAfterReplace(old(hackathons), h, h.id);
    }

    /** `saveCurrentUser`: last write wins. */
    method SaveCurrentUser(u: User)
      modifies this
      ensures available == old(available) && hackathons == old(hackathons)
      ensures participations == old(participations) && authUser == old(authUser)
      ensures currentUser == if available then Some(u) else old(currentUser)
      ensures available ==> GetCurrentUser() == Some(u)
    {
      if !available {
        return;
      }
      currentUser := Some(u);
    }

    /** `clearCurrentUser`. */
    method ClearCurrentUser()
      modifies this
      ensures available == old(available) && hackathons == old(hackathons)
      ensures participations == old(participations) && authUser == old(authUser)
      ensures currentUser == if available then None else old(currentUser)
      ensures GetCurrentUser() == None
    {
      if !available {
        return;
      }
      currentUser := None;
    }

    /** The sign-up flow's write of the `user` slot; it runs only in the browser. */
    method SetAuthUser(u: User)
      requires available
      modifies this
      ensures available == old(available) && hackathons == old(hackathons)
      ensures participations == old(participations) && currentUser == old(currentUser)
      ensures authUser == Some(u)
    {
      authUser := Some(u);
    }

    /** The sign-out flow's removal of the `user` slot. */
    method ClearAuthUser()
      requires available
      modifies this
      ensures available == old(available) && hackathons == old(hackathons)
      ensures participations == old(participations) && currentUser == old(currentUser)
      ensures authUser == None
    {
      authUser := None;
    }

    /** `addUserParticipation`: first the idempotent insert into the index,
        then the mirror step, which appends a snapshot of the `user` slot to
        the hackathon's participants unless one with `userId` is there. A
        missing hackathon skips the mirror but keeps the index write. */
    method AddUserParticipation(userId: string, hackathonId: string)
      modifies this
      ensures available == old(available)
      ensures currentUser == old(currentUser) && authUser == old(authUser)
      ensures participations ==
        if available then ParticipationIndex.Insert(old(participations), userId, hackathonId)
        else old(participations)
      ensures hackathons ==
        if available then JoinMirror(old(hackathons), userId, hackathonId, old(authUser))
        else old(hackathons)
      ensures available ==> HasUserParticipated(userId, hackathonId)
      ensures old(ParticipationIndex.Valid(participations)) ==> ParticipationIndex.Valid(participations)
    {
      if !available {
        return;
      }
      if ParticipationIndex.Valid(participations) {
        ParticipationIndex.InsertKeepsValid(participations, userId, hackathonId);
      }
      var joined := ParticipationIndex.Lookup(participations, userId);
      if hackathonId !in joined {
        joined := joined + [hackathonId];
        participations := participations[userId := joined];
      }
      var found := GetHackathonById(hackathonId);
      if found.Some? {
        var hackathon := found.value;
        var user := SnapshotOf(authUser);
        if !AnyWithId(hackathon.ParticipantsOrEmpty(), userId) {
          hackathon := hackathon.(participants := Some(hackathon.ParticipantsOrEmpty() + [user]));
          UpdateHackathon(hackathon);
        }
      }
    }

    /** `removeUserParticipation`: splice the first occurrence of
        `hackathonId` out of the user's list (no write when absent), then,
        if the hackathon exists, drop every participant entry with `userId`
        and write the record back, whether or not the index held it. */
    method RemoveUserParticipation(userId: string, hackathonId: string)
      modifies this
      ensures available == old(available)
      ensures currentUser == old(currentUser) && authUser == old(authUser)
      ensures participations ==
        if available then ParticipationIndex.RemoveFirst(old(participations), userId, hackathonId)
        else old(participations)
      ensures hackathons ==
        if available then LeaveMirror(old(hackathons), userId, hackathonId)
        else old(hackathons)
      ensures available && ParticipationIndex.NoDuplicates(ParticipationIndex.Lookup(old(participations), userId)) ==>
        !HasUserParticipated(userId, hackathonId)
      ensures available && old(ParticipationIndex.Valid(participations)) ==> !HasUserParticipated(userId, hackathonId)
      ensures old(ParticipationIndex.Valid(participations)) ==> ParticipationIndex.Valid(participations)
    {
      if !available {
        return;
      }
      if ParticipationIndex.Valid(participations) {
        ParticipationIndex.RemoveFirstKeepsValid(participations, userId, hackathonId);
      }
      ghost var table := hackathons;
      var joined := ParticipationIndex.Lookup(participations, userId);
      var index := ParticipationIndex.IndexOf(joined, hackathonId);
      if index.Some? {
        joined := joined[..index.value] + joined[index.value + 1..];
        participations := participations[userId := joined];
      }
      assert participations == ParticipationIndex.RemoveFirst(old(participations), userId, hackathonId);
      if ParticipationIndex.NoDuplicates(ParticipationIndex.Lookup(old(participations), userId)) {
        ParticipationIndex.RemoveClearsMembership(old(participations), userId, hackathonId);
      }
      var found := GetHackathonById(hackathonId);
      assert found == Find(table, hackathonId);
      if found.Some? {
        var hackathon := found.value;
        hackathon := hackathon.(participants := Some(Without(hackathon.ParticipantsOrEmpty(), userId)));
        UpdateHackathon(hackathon);
      }
    }
  }

  /** Without a browser window every reader gives its empty default and the
      mutators have nothing to write. */
  method ServerRenderScenario(userId: string, hackathonId: string, h: Hackathon)
    returns (list: seq<Hackathon>, byId: Option<Hackathon>, joined: seq<string>, has: bool, session: Option<User>)
    ensures list == [] && byId == None && joined == [] && !has && session == None
  {
    var store := new Store(false);
    store.AddHackathon(h);
    store.SaveCurrentUser(User(userId, "", "", Participant));
    store.AddUserParticipation(userId, hackathonId);
    list := store.GetHackathons();
    byId := store.GetHackathonById(h.id);
    joined := store.GetUserParticipations(userId);
    has := store.HasUserParticipated(userId, hackathonId);
    session := store.GetCurrentUser();
  }

  /** A host creates a hackathon, a participant signs up and joins it: the
      index records the join and the hackathon lists exactly that user. */
  method JoinScenario(h: Hackathon, u: User)
    returns (has: bool, entries: Option<seq<Entry>>)
    requires h.participants == None
    ensures has && entries == Some([Snapshot(u)])
  {
    var store := new Store(true);
    store.AddHackathon(h);
    store.SetAuthUser(u);
    assert store.hackathons == [h] && store.authUser == Some(u);
    store.AddUserParticipation(u.id, h.id);
    has := store.HasUserParticipated(u.id, h.id);
    ghost var joinedRecord := h.(participants := Some([Snapshot(u)]));
    JoinedFreshHackathon(h, u);
    assert store.hackathons == [joinedRecord];
    var found := store.GetHackathonById(h.id);
    assert found == Some(joinedRecord);
    entries := if found.Some? then found.value.participants else None;
  }

  /** Join, leave, join again, starting from a fresh storage. */
  method ToggleScenario(u: User, h: Hackathon)
    returns (afterJoin: bool, afterLeave: bool, afterRejoin: bool)
    ensures afterJoin && !afterLeave && afterRejoin
  {
    var store := new Store(true);
    store.AddHackathon(h);
    store.SetAuthUser(u);
    store.AddUserParticipation(u.id, h.id);
    afterJoin := store.HasUserParticipated(u.id, h.id);
    store.RemoveUserParticipation(u.id, h.id);
    afterLeave := store.HasUserParticipated(u.id, h.id);
    store.AddUserParticipation(u.id, h.id);
    afterRejoin := store.HasUserParticipated(u.id, h.id);
  }
}
