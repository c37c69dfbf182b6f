/** The record shapes of the hackpub data layer: users, the participant
    snapshots embedded in a hackathon, and hackathons themselves. */
module Types {

  datatype Option<+T> = None | Some(value: T)

  datatype Role = Host | Participant

  datatype User = User(id: string, name: string, email: string, role: Role)

  /** One entry of a hackathon's `participants` list: a copy of the record
      that sat in the `user` slot when the user joined, or the empty object
      `{}` that parsing an absent slot yields. The empty object has no id. */
  datatype Entry = Snapshot(user: User) | EmptyObject
  {
    /** `p.id === userId` in the source: false for the empty object, whose
        `id` is undefined. */
    predicate HasId(userId: string)
      ensures HasId(userId) ==> Snapshot? && user.id == userId
      ensures EmptyObject? ==> !HasId(userId)
    {
      Snapshot? && user.id == userId
    }
  }

  datatype Hackathon = Hackathon(
    id: string,
    title: string,
    description: string,
    category: string,
    bannerUrl: string,
    formLink: string,
    createdAt: string,
    hostId: string,
    participants: Option<seq<Entry>>)
  {
    /** `hackathon.participants || []`: an unset list reads as empty. */
    function ParticipantsOrEmpty(): (ps: seq<Entry>)
      ensures participants.Some? ==> ps == participants.value
      ensures participants.None? ==> ps == []
    {
      if participants.Some? then participants.value else []
    }
  }
}
