/** The mirror steps: keeping each hackathon's embedded `participants` list
    in step with the participation index when a user joins or leaves. */
module ParticipantsMirror {
  import opened Types
  import opened HackathonList

  /** `participants.some(p => p.id === userId)`. */
  predicate AnyWithId(ps: seq<Entry>, userId: string)
  {
    exists i :: 0 <= i < |ps| && ps[i].HasId(userId)
  }

  /** How many entries carry `userId`. */
  function CountWithId(ps: seq<Entry>, userId: string): nat
  {
    if ps == [] then 0
    else (if ps[0].HasId(userId) then 1 else 0) + CountWithId(ps[1..], userId)
  }

  /** `participants.filter(p => p.id !== userId)`. */
  function Without(ps: seq<Entry>, userId: string): (r: seq<Entry>)
    ensures forall i :: 0 <= i < |r| ==> !r[i].HasId(userId)
    ensures forall i :: 0 <= i < |r| ==> r[i] in ps
    ensures |r| == |ps| - CountWithId(ps, userId)
  {
    if ps == [] then []
    else if ps[0].HasId(userId) then Without(ps[1..], userId)
    else [ps[0]] + Without(ps[1..], userId)
  }

  /** What `JSON.parse(localStorage.getItem('user') || '{}')` yields: the
      record in the `user` slot, or the empty object when the slot is absent. */
  function SnapshotOf(authUser: Option<User>): (e: Entry)
    ensures authUser.Some? ==> e.Snapshot? && e.user == authUser.value
    ensures authUser.None? ==> e.EmptyObject? && forall userId :: !e.HasId(userId)
  {
    if authUser.Some? then Snapshot(authUser.value) else EmptyObject
  }

  /** The mirror step of `addUserParticipation`: when the hackathon exists and
      no entry carries `userId`, append the snapshot and write the record back
      with `updateHackathon`; otherwise leave the table as it was. */
  function JoinMirror(hs: seq<Hackathon>, userId: string, hackathonId: string, authUser: Option<User>): seq<Hackathon>
  {
    match Find(hs, hackathonId)
    case None => hs
    case Some(h) =>
      if AnyWithId(h.ParticipantsOrEmpty(), userId) then hs
      else ReplaceFirst(hs, h.(participants := Some(h.ParticipantsOrEmpty() + [SnapshotOf(authUser)])))
  }

  /** The mirror step of `removeUserParticipation`: when the hackathon exists,
      drop every entry carrying `userId` (an unset list becomes `[]`) and
      write the record back, whether or not the user was in the index. */
  function LeaveMirror(hs: seq<Hackathon>, userId: string, hackathonId: string): seq<Hackathon>
  {
    match Find(hs, hackathonId)
    case None => hs
    case Some(h) =>
      ReplaceFirst(hs, h.(participants := Some(Without(h.ParticipantsOrEmpty(), userId))))
  }

  lemma {:induction false} CountWithIdAppend(ps: seq<Entry>, e: Entry, userId: string)
    ensures CountWithId(ps + [e], userId) == CountWithId(ps, userId) + (if e.HasId(userId) then 1 else 0)
  {
    if ps != [] {
      assert (ps + [e])[1..] == ps[1..] + [e];
      CountWithIdAppend(ps[1..], e, userId);
    }
  }

  lemma {:induction false} CountWithIdZero(ps: seq<Entry>, userId: string)
    ensures CountWithId(ps, userId) == 0 <==> !AnyWithId(ps, userId)
  {
    if ps != [] {
      CountWithIdZero(ps[1..], userId);
      if AnyWithId(ps[1..], userId) {
        var i :| 0 <= i < |ps[1..]| && ps[1..][i].HasId(userId);
        assert ps[i + 1].HasId(userId);
      }
      if AnyWithId(ps, userId) && !ps[0].HasId(userId) {
        var i :| 0 <= i < |ps| && ps[i].HasId(userId);
        assert ps[1..][i - 1].HasId(userId);
      }
    }
  }

  /** Filtering keeps the order of what it keeps: it distributes over
      concatenation. */
  lemma {:induction false} WithoutAppend(ps: seq<Entry>, qs: seq<Entry>, userId: string)
    ensures Without(ps + qs, userId) == Without(ps, userId) + Without(qs, userId)
  {
    if ps == [] {
      assert ps + qs == qs;
    } else {
      assert (ps + qs)[0] == ps[0];
      assert (ps + qs)[1..] == ps[1..] + qs;
      WithoutAppend(ps[1..], qs, userId);
    }
  }

  /** Filtering a list with no entry for the user changes nothing. */
  lemma {:induction false} WithoutNothingToDrop(ps: seq<Entry>, userId: string)
    requires !AnyWithId(ps, userId)
    ensures Without(ps, userId) == ps
  {
    if ps != [] {
      assert !ps[0].HasId(userId);
      assert !AnyWithId(ps[1..], userId);
      WithoutNothingToDrop(ps[1..], userId);
    }
  }

  /** What joining does to the table. If the hackathon is missing, or some
      entry already carries `userId`, nothing changes. Otherwise exactly one
      entry, the snapshot of the `user` slot, is appended to the first
      record with that id; every other record and every other field stay. */
  lemma JoinMirrorEffect(hs: seq<Hackathon>, userId: string, hackathonId: string, authUser: Option<User>)
    ensures Find(hs, hackathonId).None? ==> JoinMirror(hs, userId, hackathonId, authUser) == hs
    ensures Find(hs, hackathonId).Some? && AnyWithId(Find(hs, hackathonId).value.ParticipantsOrEmpty(), userId) ==>
      JoinMirror(hs, userId, hackathonId, authUser) == hs
    ensures match FirstIndex(hs, hackathonId)
      case None => true
      case Some(i) =>
        var r := JoinMirror(hs, userId, hackathonId, authUser);
        var ps := hs[i].ParticipantsOrEmpty();
        |r| == |hs| &&
        (forall k :: 0 <= k < |hs| && k != i ==> r[k] == hs[k]) &&
        (!AnyWithId(ps, userId) ==>
          r[i] == hs[i].(participants := Some(ps + [SnapshotOf(authUser)])))
  {
  }

  /** Joining leaves the hackathon with at least one entry for the user
      exactly when the `user` slot holds that user (or one was already
      there); with a matching slot the number of such entries becomes one
      if it was zero and is otherwise unchanged. */
  lemma JoinMirrorCount(hs: seq<Hackathon>, userId: string, hackathonId: string, authUser: Option<User>)
    requires FirstIndex(hs, hackathonId).Some?
    ensures
      var i := FirstIndex(hs, hackathonId).value;
      var before := CountWithId(hs[i].ParticipantsOrEmpty(), userId);
      var after := CountWithId(JoinMirror(hs, userId, hackathonId, authUser)[i].ParticipantsOrEmpty(), userId);
      after == if before == 0 && authUser.Some? && authUser.value.id == userId then 1 else before
  {
    var i := FirstIndex(hs, hackathonId).value;
    var ps := hs[i].ParticipantsOrEmpty();
    CountWithIdZero(ps, userId);
    CountWithIdAppend(ps, SnapshotOf(authUser), userId);
    JoinMirrorEffect(hs, userId, hackathonId, authUser);
  }

  /** With the `user` slot holding the joining user, a second join adds
      nothing: the mirror step is idempotent. */
  lemma JoinMirrorIdempotent(hs: seq<Hackathon>, userId: string, hackathonId: string, u: User)
    requires u.id == userId
    ensures JoinMirror(JoinMirror(hs, userId, hackathonId, Some(u)), userId, hackathonId, Some(u)) ==
      JoinMirror(hs, userId, hackathonId, Some(u))
  {
    var r := JoinMirror(hs, userId, hackathonId, Some(u));
    match FirstIndex(hs, hackathonId)
    case None =>
    case Some(i) =>
      var h := hs[i];
      var ps := h.ParticipantsOrEmpty();
      if !AnyWithId(ps, userId) {
        var h' := h.(participants := Some(ps + [Snapshot(u)]));
        ReplaceFirstKeepsIds(hs, h');
        FirstIndexFromIds(hs, r, hackathonId);
        assert r[i] == h';
        assert (ps + [Snapshot(u)])[|ps|].HasId(userId);
        assert AnyWithId(h'.ParticipantsOrEmpty(), userId);
      }
  }

  /** When the `user` slot is absent or holds some other user, the appended
      entry never carries `userId`, so the duplicate check never fires: two
      joins append the snapshot twice. */
  lemma JoinMirrorRepeatsUnlessSlotMatches(hs: seq<Hackathon>, userId: string, hackathonId: string, authUser: Option<User>, i: nat)
    requires FirstIndex(hs, hackathonId) == Some(i)
    requires !AnyWithId(hs[i].ParticipantsOrEmpty(), userId)
    requires !SnapshotOf(authUser).HasId(userId)
    ensures JoinMirror(JoinMirror(hs, userId, hackathonId, authUser), userId, hackathonId, authUser)[i].participants ==
      Some(hs[i].ParticipantsOrEmpty() + [SnapshotOf(authUser), SnapshotOf(authUser)])
  {
    var ps := hs[i].ParticipantsOrEmpty();
    var e := SnapshotOf(authUser);
    var r1 := JoinMirror(hs, userId, hackathonId, authUser);
    JoinMirrorAt(hs, userId, hackathonId, authUser, i);
    assert r1[i].ParticipantsOrEmpty() == ps + [e];
    assert !AnyWithId(ps + [e], userId) by {
      CountWithIdZero(ps, userId);
      CountWithIdAppend(ps, e, userId);
      CountWithIdZero(ps + [e], userId);
    }
    JoinMirrorAt(r1, userId, hackathonId, authUser, i);
    assert ps + [e] + [e] == ps + [e, e];
  }

  /** What leaving does to the table. If the hackathon exists, its first
      record keeps, in order, exactly the entries not carrying `userId`, and
      nothing else changes; if it is missing, nothing changes at all. */
  lemma LeaveMirrorEffect(hs: seq<Hackathon>, userId: string, hackathonId: string)
    ensures Find(hs, hackathonId).None? ==> LeaveMirror(hs, userId, hackathonId) == hs
    ensures match FirstIndex(hs, hackathonId)
      case None => true
      case Some(i) =>
        var r := LeaveMirror(hs, userId, hackathonId);
        |r| == |hs| &&
        (forall k :: 0 <= k < |hs| && k != i ==> r[k] == hs[k]) &&
        r[i] == hs[i].(participants := Some(Without(hs[i].ParticipantsOrEmpty(), userId))) &&
        !AnyWithId(r[i].ParticipantsOrEmpty(), userId)
  {
  }

  /** Leaving twice is the same as leaving once. */
  lemma LeaveMirrorIdempotent(hs: seq<Hackathon>, userId: string, hackathonId: string)
    ensures LeaveMirror(LeaveMirror(hs, userId, hackathonId), userId, hackathonId) == LeaveMirror(hs, userId, hackathonId)
  {
    var r := LeaveMirror(hs, userId, hackathonId);
    match FirstIndex(hs, hackathonId)
    case None =>
    case Some(i) =>
      var h' := hs[i].(participants := Some(Without(hs[i].ParticipantsOrEmpty(), userId)));
      ReplaceFirstKeepsIds(hs, h');
      FirstIndexFromIds(hs, r, hackathonId);
      WithoutNothingToDrop(Without(hs[i].ParticipantsOrEmpty(), userId), userId);
  }

  /** Joining a hackathon whose first record has no entry for the user
      rewrites exactly that record, which stays the first with its id. */
  lemma JoinMirrorAt(hs: seq<Hackathon>, userId: string, hackathonId: string, authUser: Option<User>, i: nat)
    requires FirstIndex(hs, hackathonId) == Some(i)
    requires !AnyWithId(hs[i].ParticipantsOrEmpty(), userId)
    ensures JoinMirror(hs, userId, hackathonId, authUser)[i] ==
      hs[i].(participants := Some(hs[i].ParticipantsOrEmpty() + [SnapshotOf(authUser)]))
    ensures FirstIndex(JoinMirror(hs, userId, hackathonId, authUser), hackathonId) == Some(i)
  {
    assert Find(hs, hackathonId) == Some(hs[i]);
    ReplaceFirstAt(hs, hs[i].(participants := Some(hs[i].ParticipantsOrEmpty() + [SnapshotOf(authUser)])), i);
  }

  /** Leaving a hackathon rewrites its first record, which stays the first
      with its id. */
  lemma LeaveMirrorAt(hs: seq<Hackathon>, userId: string, hackathonId: string, i: nat)
    requires FirstIndex(hs, hackathonId) == Some(i)
    ensures LeaveMirror(hs, userId, hackathonId)[i] ==
      hs[i].(participants := Some(Without(hs[i].ParticipantsOrEmpty(), userId)))
    ensures FirstIndex(LeaveMirror(hs, userId, hackathonId), hackathonId) == Some(i)
  {
    assert Find(hs, hackathonId) == Some(hs[i]);
    ReplaceFirstAt(hs, hs[i].(participants := Some(Without(hs[i].ParticipantsOrEmpty(), userId))), i);
  }

  lemma WithoutOwnSnapshot(u: User)
    ensures Without([Snapshot(u)], u.id) == []
  {
    assert [Snapshot(u)][1..] == [];
  }

  /** Join then leave: when the hackathon exists and the user had no entry,
      leaving removes the snapshot the join appended and restores the
      participant list as it was before the join. */
  lemma LeaveUndoesJoin(hs: seq<Hackathon>, userId: string, hackathonId: string, u: User, i: nat)
    requires u.id == userId
    requires FirstIndex(hs, hackathonId) == Some(i)
    requires !AnyWithId(hs[i].ParticipantsOrEmpty(), userId)
    ensures LeaveMirror(JoinMirror(hs, userId, hackathonId, Some(u)), userId, hackathonId)[i].participants ==
      Some(hs[i].ParticipantsOrEmpty())
  {
    var ps := hs[i].ParticipantsOrEmpty();
    var r1 := JoinMirror(hs, userId, hackathonId, Some(u));
    JoinMirrorAt(hs, userId, hackathonId, Some(u), i);
    assert r1[i].ParticipantsOrEmpty() == ps + [Snapshot(u)];
    LeaveMirrorAt(r1, userId, hackathonId, i);
    WithoutAppend(ps, [Snapshot(u)], userId);
    WithoutNothingToDrop(ps, userId);
    WithoutOwnSnapshot(u);
    assert Without(ps, userId) + Without([Snapshot(u)], userId) == ps;
  }

  /** The mirror step on a table holding one hackathon whose participants
      are unset: the record ends up listing exactly the user's snapshot. */
  lemma JoinedFreshHackathon(h: Hackathon, u: User)
    requires h.participants == None
    ensures JoinMirror([h], u.id, h.id, Some(u)) == [h.(participants := Some([Snapshot(u)]))]
  {
    assert FirstIndex([h], h.id) == Some(0);
    JoinMirrorAt([h], u.id, h.id, Some(u), 0);
    assert [] + [Snapshot(u)] == [Snapshot(u)];
  }
}
