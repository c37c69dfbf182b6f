/** The hackathon table: an ordered list of records looked up by id with a
    first-match scan (`find` / `findIndex`), grown by appending and edited by
    replacing the first match. Nothing enforces that ids are unique. */
module HackathonList {
  import opened Types

  /** `hackathons.findIndex(h => h.id === id)`: the position of the first
      record carrying `id`, or nothing (the source's -1). */
  function FirstIndex(hs: seq<Hackathon>, id: string): (r: Option<nat>)
    ensures r.Some? ==> r.value < |hs| && hs[r.value].id == id
    ensures r.Some? ==> forall j :: 0 <= j < r.value ==> hs[j].id != id
    ensures r.None? <==> forall j :: 0 <= j < |hs| ==> hs[j].id != id
  {
    if hs == [] then None
    else if hs[0].id == id then Some(0)
    else match FirstIndex(hs[1..], id)
      case None => None
      case Some(i) => Some(i + 1)
  }

  /** `hackathons.find(h => h.id === id) || null`. */
  function Find(hs: seq<Hackathon>, id: string): (r: Option<Hackathon>)
    ensures r.None? <==> forall j :: 0 <= j < |hs| ==> hs[j].id != id
    ensures r.Some? ==> r.value.id == id
    ensures r.Some? ==>
      exists i :: 0 <= i < |hs| && hs[i] == r.value && forall j :: 0 <= j < i ==> hs[j].id != id
  {
    match FirstIndex(hs, id)
    case None => None
    case Some(i) => Some(hs[i])
  }

  /** The body of `updateHackathon`: overwrite the first record whose id is
      `h.id` with `h`; when there is none the list is left as it was. */
  function ReplaceFirst(hs: seq<Hackathon>, h: Hackathon): (r: seq<Hackathon>)
    ensures |r| == |hs|
    ensures match FirstIndex(hs, h.id)
      case None => r == hs
      case Some(i) => r[i] == h && forall k :: 0 <= k < |hs| && k != i ==> r[k] == hs[k]
  {
    match FirstIndex(hs, h.id)
    case None => hs
    case Some(i) => hs[i := h]
  }

  /** No two records share an id (what the application hopes for, but never checks). */
  predicate UniqueIds(hs: seq<Hackathon>)
  {
    forall i, j :: 0 <= i < j < |hs| ==> hs[i].id != hs[j].id
  }

  /** Appending `h` (`addHackathon`) changes no lookup that already
      succeeded; `h` itself is found by its id only when no earlier record
      carries that id. */
  lemma {:induction false} FindAfterAppend(hs: seq<Hackathon>, h: Hackathon, id: string)
    ensures Find(hs + [h], id) ==
      if Find(hs, id).Some? then Find(hs, id)
      else if h.id == id then Some(h)
      else None
  {
    if hs != [] {
      assert (hs + [h])[1..] == hs[1..] + [h];
      FindAfterAppend(hs[1..], h, id);
    }
  }

  /** After `addHackathon(h)`, looking up `h.id` yields `h` exactly when no
      earlier record shares its id; otherwise the earlier record shadows it. */
  lemma AppendThenFindOwnId(hs: seq<Hackathon>, h: Hackathon)
    ensures (forall j :: 0 <= j < |hs| ==> hs[j].id != h.id) ==> Find(hs + [h], h.id) == Some(h)
    ensures (exists j :: 0 <= j < |hs| && hs[j].id == h.id) ==> Find(hs + [h], h.id) == Find(hs, h.id)
  {
    FindAfterAppend(hs, h, h.id);
  }

  /** Appending keeps ids unique exactly when the new id is fresh. */
  lemma AppendKeepsUniqueIds(hs: seq<Hackathon>, h: Hackathon)
    requires UniqueIds(hs)
    ensures UniqueIds(hs + [h]) <==> forall j :: 0 <= j < |hs| ==> hs[j].id != h.id
  {
    if !forall j :: 0 <= j < |hs| ==> hs[j].id != h.id {
      var j :| 0 <= j < |hs| && hs[j].id == h.id;
      assert (hs + [h])[j].id == (hs + [h])[|hs|].id;
    }
  }

  /** Replacing never changes which id sits at which position, so it keeps
      ids unique. */
  lemma ReplaceFirstKeepsIds(hs: seq<Hackathon>, h: Hackathon)
    ensures forall k :: 0 <= k < |hs| ==> ReplaceFirst(hs, h)[k].id == hs[k].id
    ensures UniqueIds(hs) ==> UniqueIds(ReplaceFirst(hs, h))
  {
    var r := ReplaceFirst(hs, h);
    forall k | 0 <= k < |hs|
      ensures r[k].id == hs[k].id
    {
    }
  }

  /** After `updateHackathon(h)`, looking up `h.id` yields `h` if some record
      had that id and nothing otherwise; lookups of every other id are
      unaffected. */
  lemma FindAfterReplace(hs: seq<Hackathon>, h: Hackathon, id: string)
    ensures id == h.id ==> Find(ReplaceFirst(hs, h), id) == if Find(hs, id).Some? then Some(h) else None
    ensures id != h.id ==> Find(ReplaceFirst(hs, h), id) == Find(hs, id)
  {
    var r := ReplaceFirst(hs, h);
    ReplaceFirstKeepsIds(hs, h);
    match FirstIndex(hs, h.id)
    case None =>
    case Some(i) =>
      FirstIndexFromIds(hs, r, id);
  }

  /** Two lists with the same ids position by position have the same first
      index for every id. */
  lemma FirstIndexFromIds(hs: seq<Hackathon>, gs: seq<Hackathon>, id: string)
    requires |hs| == |gs|
    requires forall k :: 0 <= k < |hs| ==> hs[k].id == gs[k].id
    ensures FirstIndex(hs, id) == FirstIndex(gs, id)
  {
    var a, b := FirstIndex(hs, id), FirstIndex(gs, id);
    if a.Some? && b.Some? {
      assert !(a.value < b.value) && !(b.value < a.value);
    }
  }

  /** Where a replacement lands: at the first index of the new record's
      id, which stays the first index of that id afterwards. */
  lemma ReplaceFirstAt(hs: seq<Hackathon>, h: Hackathon, i: nat)
    requires FirstIndex(hs, h.id) == Some(i)
    ensures ReplaceFirst(hs, h)[i] == h
    ensures FirstIndex(ReplaceFirst(hs, h), h.id) == Some(i)
  {
    ReplaceFirstKeepsIds(hs, h);
    FirstIndexFromIds(hs, ReplaceFirst(hs, h), h.id);
  }

  /** Updating twice with the same record is the same as updating once. */
  lemma ReplaceFirstIdempotent(hs: seq<Hackathon>, h: Hackathon)
    ensures ReplaceFirst(ReplaceFirst(hs, h), h) == ReplaceFirst(hs, h)
  {
    ReplaceFirstKeepsIds(hs, h);
    FirstIndexFromIds(hs, ReplaceFirst(hs, h), h.id);
  }
}
