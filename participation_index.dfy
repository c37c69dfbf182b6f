/** The participation index stored under `userParticipations`: for each user
    id, the ordered list of hackathon ids that user has joined. */
module ParticipationIndex {
  import opened Types

  type Index = map<string, seq<string>>

  /** `allParticipations[userId] || []`: a user without an entry has joined nothing. */
  function Lookup(m: Index, userId: string): (r: seq<string>)
    ensures userId in m ==> r == m[userId]
    ensures userId !in m ==> r == []
  {
    if userId in m then m[userId] else []
  }

  /** `list.indexOf(x)`: the position of the first occurrence, or nothing. */
  function IndexOf(s: seq<string>, x: string): (r: Option<nat>)
    ensures r.Some? ==> r.value < |s| && s[r.value] == x
    ensures r.Some? ==> forall j :: 0 <= j < r.value ==> s[j] != x
    ensures r.None? <==> x !in s
  {
    if s == [] then None
    else if s[0] == x then Some(0)
    else match IndexOf(s[1..], x)
      case None => None
      case Some(i) => Some(i + 1)
  }

  /** The index step of `addUserParticipation`: append `hackathonId` to the
      user's list unless it is already there. */
  function Insert(m: Index, userId: string, hackathonId: string): (r: Index)
    ensures hackathonId in Lookup(r, userId)
    ensures hackathonId in Lookup(m, userId) ==> r == m
    ensures hackathonId !in Lookup(m, userId) ==> Lookup(r, userId) == Lookup(m, userId) + [hackathonId]
    ensures r.Keys == m.Keys + {userId} || r == m
    ensures forall v :: v != userId ==> Lookup(r, v) == Lookup(m, v)
  {
    var joined := Lookup(m, userId);
    if hackathonId in joined then m else m[userId := joined + [hackathonId]]
  }

  /** The index step of `removeUserParticipation`: splice out the first
      occurrence of `hackathonId` from the user's list, keeping the rest in
      order; when it is absent nothing is written. */
  function RemoveFirst(m: Index, userId: string, hackathonId: string): (r: Index)
    ensures match IndexOf(Lookup(m, userId), hackathonId)
      case None => r == m
      case Some(i) => Lookup(r, userId) == Lookup(m, userId)[..i] + Lookup(m, userId)[i + 1..]
    ensures r.Keys == m.Keys
    ensures forall v :: v != userId ==> Lookup(r, v) == Lookup(m, v)
  {
    var joined := Lookup(m, userId);
    match IndexOf(joined, hackathonId)
    case None => m
    case Some(i) => m[userId := joined[..i] + joined[i + 1..]]
  }

  /** `hasUserParticipated` over a present store. */
  predicate Has(m: Index, userId: string, hackathonId: string)
    ensures Has(m, userId, hackathonId) <==> userId in m && hackathonId in m[userId]
  {
    hackathonId in Lookup(m, userId)
  }

  predicate NoDuplicates(s: seq<string>)
  {
    forall i, j :: 0 <= i < j < |s| ==> s[i] != s[j]
  }

  /** Every user's list is free of repeats: the state the add/remove pair
      keeps when started from an empty index. */
  predicate Valid(m: Index)
  {
    forall u :: u in m ==> NoDuplicates(m[u])
  }

  /** Removing the first occurrence takes exactly one copy out of the list. */
  lemma RemoveFirstMultiset(m: Index, userId: string, hackathonId: string)
    ensures multiset(Lookup(RemoveFirst(m, userId, hackathonId), userId)) ==
      multiset(Lookup(m, userId)) - multiset{hackathonId}
  {
    var s := Lookup(m, userId);
    match IndexOf(s, hackathonId)
    case None =>
      assert multiset(s)[hackathonId] == 0;
    case Some(i) =>
      assert s == s[..i] + [s[i]] + s[i + 1..];
  }

  /** Both index steps keep every list free of repeats. */
  lemma InsertKeepsValid(m: Index, userId: string, hackathonId: string)
    requires Valid(m)
    ensures Valid(Insert(m, userId, hackathonId))
  {
  }

  lemma RemoveFirstKeepsValid(m: Index, userId: string, hackathonId: string)
    requires Valid(m)
    ensures Valid(RemoveFirst(m, userId, hackathonId))
  {
    var s := Lookup(m, userId);
    match IndexOf(s, hackathonId)
    case None =>
    case Some(i) =>
      var t := s[..i] + s[i + 1..];
      forall a, b | 0 <= a < b < |t|
        ensures t[a] != t[b]
      {
        var a' := if a < i then a else a + 1;
        var b' := if b < i then b else b + 1;
        assert t[a] == s[a'] && t[b] == s[b'];
      }
  }

  /** In a repeat-free index, leaving removes the membership entirely, so
      `hasUserParticipated` turns false. */
  lemma RemoveClearsMembership(m: Index, userId: string, hackathonId: string)
    requires NoDuplicates(Lookup(m, userId))
    ensures !Has(RemoveFirst(m, userId, hackathonId), userId, hackathonId)
  {
    var s := Lookup(m, userId);
    match IndexOf(s, hackathonId)
    case None =>
    case Some(i) =>
      assert hackathonId !in s[..i] + s[i + 1..];
  }

  /** Leaving undoes joining: when the user had not joined, insert followed
      by remove restores every user's list. */
  lemma RemoveUndoesInsert(m: Index, userId: string, hackathonId: string)
    requires !Has(m, userId, hackathonId)
    ensures forall v :: Lookup(RemoveFirst(Insert(m, userId, hackathonId), userId, hackathonId), v) == Lookup(m, v)
  {
    var s := Lookup(m, userId);
    var m1 := Insert(m, userId, hackathonId);
    var s1 := s + [hackathonId];
    assert Lookup(m1, userId) == s1;
    assert IndexOf(s1, hackathonId) == Some(|s|);
    assert s1[..|s|] + s1[|s| + 1..] == s;
  }

  /** Join, leave, join again: the user ends up a participant, whatever the
      index held before, as long as it had no repeats. */
  lemma JoinLeaveJoin(m: Index, userId: string, hackathonId: string)
    requires Valid(m)
    ensures Has(Insert(m, userId, hackathonId), userId, hackathonId)
    ensures !Has(RemoveFirst(Insert(m, userId, hackathonId), userId, hackathonId), userId, hackathonId)
    ensures Has(Insert(RemoveFirst(Insert(m, userId, hackathonId), userId, hackathonId), userId, hackathonId), userId, hackathonId)
  {
    var m1 := Insert(m, userId, hackathonId);
    InsertKeepsValid(m, userId, hackathonId);
    assert Valid(m1);
    assert NoDuplicates(Lookup(m1, userId));
    RemoveClearsMembership(m1, userId, hackathonId);
  }
}
