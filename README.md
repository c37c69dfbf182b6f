# hackpub storage layer in Dafny

This project models the browser-storage data layer of hackpub, a web app for listing, creating and joining hackathons. All persistent state lives in the browser's `localStorage`. Four entries are involved:

- `hackathons`: an ordered list of hackathon records. Lookups scan it for the first record with a given id; nothing stops two records sharing an id.
- `userParticipations`: a map from user id to the list of hackathon ids that user has joined.
- `currentUser`: the session slot, which `saveCurrentUser` and `clearCurrentUser` write.
- `user`: the slot that sign-up writes and sign-out removes. The join step copies it into a hackathon's `participants` list.

`LocalStorage.Store` is a class with one field per entry, plus `available`, which is false where no browser window exists (server rendering). Its reader functions and its mutator methods follow `hackpub/src/utils/localStorage.ts` one for one. Each mutator is a read-modify-write. Its `ensures` gives the new state of every field in terms of value-level functions in three modules:

- `HackathonList`: `find`, `findIndex` and the overwrite done by `updateHackathon`.
- `ParticipationIndex`: the idempotent insert and the first-occurrence `splice`.
- `ParticipantsMirror`: the step that appends a snapshot of the `user` slot to a hackathon's `participants`, and the step that filters the user out again.

The lemmas about these functions state what the operations promise: lookups after append and after update, idempotence, undo, unchanged entries, and the no-duplication and repeat-free invariants. Three client methods replay whole scenarios against the class.

Record shapes follow `hackpub/src/types/index.ts`. A participant entry is `Entry`. It is either a `Snapshot` of a `User`, or the `EmptyObject` that `JSON.parse('{}')` yields when the `user` slot is absent. The empty object has no `id`, so it never matches a user id.

## Behaviour worth knowing
- The participation index keeps a list of hackathon ids per user. Insert checks membership first, so lists built by insert have no repeats. Removal splices out only the first occurrence. Under the no-repeats invariant (`ParticipationIndex.Valid`), that ends the membership.
- The join step copies the `user` slot, not the `currentUser` slot. Its duplicate check compares entries against the joining `userId`, and a record that already lists an entry with that id is never touched. When the slot holds the joining user, a second join appends nothing (`JoinMirrorIdempotent`). When the hackathon exists, its record has no entry with the joining id yet, and the slot is absent or holds another user, each join appends another copy of the slot's entry (`JoinMirrorRepeatsUnlessSlotMatches`).
- The storage module has no delete operation.
- The leave step writes the hackathon back even when the index never held the user. It also turns an unset `participants` into `[]`.

## Model
| member | source | states |
|---|---|---|
| Types.Entry.HasId | hackpub/src/utils/localStorage.ts:94 | `p.id === userId`: holds only for a user snapshot with that id, never for the id-less empty object |
| Types.Hackathon.ParticipantsOrEmpty | hackpub/src/utils/localStorage.ts:95 | the `participants` fallback to `[]`: the stored list, or `[]` when it is unset |
| HackathonList.FirstIndex | hackpub/src/utils/localStorage.ts:36 | `findIndex`: the result holds `id`, no earlier position holds it, and nothing is returned exactly when no record has `id` |
| HackathonList.Find | hackpub/src/utils/localStorage.ts:17-20 | `find`: returns a record with `id` that sits before every other record with `id`; returns nothing exactly when no record has that id |
| HackathonList.ReplaceFirst | hackpub/src/utils/localStorage.ts:35-40 | same length; only the first index with `h.id` becomes `h` and every other index is unchanged; no match leaves the list as it was |
| HackathonList.FindAfterAppend | hackpub/src/utils/localStorage.ts:17-29 | after appending, every lookup that succeeded before returns the same record; the new record is found only for an id no earlier record has |
| HackathonList.AppendThenFindOwnId | hackpub/src/utils/localStorage.ts:17-29 | after `addHackathon(h)`, `getHackathonById(h.id)` is `h` when its id was fresh; otherwise the earlier record shadows it |
| HackathonList.AppendKeepsUniqueIds | hackpub/src/utils/localStorage.ts:23-29 | appending keeps ids unique if and only if the new id is fresh (no uniqueness check is made) |
| HackathonList.ReplaceFirstKeepsIds | hackpub/src/utils/localStorage.ts:32-41 | an update never changes the id at any position, so it keeps ids unique |
| HackathonList.FindAfterReplace | hackpub/src/utils/localStorage.ts:32-41 | after an update, a lookup of `h.id` returns `h` if the id existed and nothing otherwise; lookups of other ids are unchanged |
| HackathonList.ReplaceFirstAt | hackpub/src/utils/localStorage.ts:36-38 | the replacement lands at the first index of its id, which stays the first index of that id |
| HackathonList.ReplaceFirstIdempotent | hackpub/src/utils/localStorage.ts:32-41 | updating twice with the same record equals updating once |
| ParticipationIndex.Lookup | hackpub/src/utils/localStorage.ts:72 | the fallback of `allParticipations[userId]` to `[]`: the user's stored list, or `[]` when the user has no entry |
| ParticipationIndex.Has | hackpub/src/utils/localStorage.ts:129-130 | the `includes` test: true exactly when the user has an entry and it contains the hackathon id |
| ParticipationIndex.IndexOf | hackpub/src/utils/localStorage.ts:110 | `indexOf`: the returned position holds the id, with no occurrence before it; nothing is returned exactly when the id is absent |
| ParticipationIndex.Insert | hackpub/src/utils/localStorage.ts:80-88 | afterwards the id is in the user's list; if it was already there the index is unchanged, otherwise it is appended; other users' lists are unchanged |
| ParticipationIndex.RemoveFirst | hackpub/src/utils/localStorage.ts:106-115 | an absent id leaves the index unchanged; otherwise the first occurrence is spliced out and the rest keep their order; other users are unchanged; the set of users with an entry is unchanged |
| ParticipationIndex.RemoveFirstMultiset | hackpub/src/utils/localStorage.ts:110-113 | removal takes exactly one copy of the id out of the user's list |
| ParticipationIndex.InsertKeepsValid | hackpub/src/utils/localStorage.ts:84-87 | insert keeps every user's list repeat-free |
| ParticipationIndex.RemoveFirstKeepsValid | hackpub/src/utils/localStorage.ts:110-114 | removal keeps every user's list repeat-free |
| ParticipationIndex.RemoveClearsMembership | hackpub/src/utils/localStorage.ts:102-131 | in a repeat-free list, removal makes `hasUserParticipated` false |
| ParticipationIndex.RemoveUndoesInsert | hackpub/src/utils/localStorage.ts:76-115 | for a user who had not joined, insert then remove restores every user's list |
| ParticipationIndex.JoinLeaveJoin | hackpub/src/utils/localStorage.ts:76-131 | starting from a repeat-free index: joined after add, not joined after remove, joined after add again |
| ParticipantsMirror.AnyWithId | hackpub/src/utils/localStorage.ts:94 | `participants.some(p => p.id === userId)`; it has no contract of its own, and `CountWithIdZero` relates it to the entry count |
| ParticipantsMirror.JoinMirror | hackpub/src/utils/localStorage.ts:90-98 | the join mirror step; it has no contract of its own, and `JoinMirrorEffect`, `JoinMirrorAt` and `JoinMirrorCount` state what it does |
| ParticipantsMirror.LeaveMirror | hackpub/src/utils/localStorage.ts:117-122 | the leave mirror step; it has no contract of its own, and `LeaveMirrorEffect` and `LeaveMirrorAt` state what it does |
| ParticipantsMirror.Without | hackpub/src/utils/localStorage.ts:120 | `filter`: no kept entry carries the user id, every kept entry was in the input, and the length drops by the number of entries with that id |
| ParticipantsMirror.SnapshotOf | hackpub/src/utils/localStorage.ts:93 | the entry copied in is the `user` record, or the id-less empty object when the slot is absent |
| ParticipantsMirror.CountWithIdZero | hackpub/src/utils/localStorage.ts:94 | the number of entries carrying the id is zero exactly when `some(p => p.id === userId)` is false |
| ParticipantsMirror.WithoutAppend | hackpub/src/utils/localStorage.ts:120 | filtering distributes over concatenation, so kept entries keep their order |
| ParticipantsMirror.WithoutNothingToDrop | hackpub/src/utils/localStorage.ts:120 | filtering a list with no entry for the user returns it unchanged |
| ParticipantsMirror.JoinMirrorEffect | hackpub/src/utils/localStorage.ts:90-98 | a missing hackathon, or an existing entry for the user, leaves the table unchanged; otherwise the snapshot is appended to the first matching record and nothing else changes |
| ParticipantsMirror.JoinMirrorAt | hackpub/src/utils/localStorage.ts:91-96 | if the first record with the hackathon id has no entry with the joining id, a join appends the slot's entry to that record, and it stays the first record with its id |
| ParticipantsMirror.JoinMirrorCount | hackpub/src/utils/localStorage.ts:90-98 | the number of entries with the user's id becomes 1 if it was 0 and the `user` slot holds that user; otherwise it is unchanged |
| ParticipantsMirror.JoinMirrorIdempotent | hackpub/src/utils/localStorage.ts:90-98 | when the `user` slot holds the joining user, a second join changes nothing |
| ParticipantsMirror.JoinMirrorRepeatsUnlessSlotMatches | hackpub/src/utils/localStorage.ts:93-96 | if the hackathon exists, its first record has no entry with the joining id, and the `user` slot is absent or holds a user with another id, then two joins append that slot's entry twice |
| ParticipantsMirror.LeaveMirrorEffect | hackpub/src/utils/localStorage.ts:117-122 | a missing hackathon leaves the table unchanged; otherwise the first matching record keeps exactly its entries without the user id, and nothing else changes |
| ParticipantsMirror.LeaveMirrorAt | hackpub/src/utils/localStorage.ts:118-121 | a leave rewrites the first matching record, which stays first with its id |
| ParticipantsMirror.LeaveMirrorIdempotent | hackpub/src/utils/localStorage.ts:117-122 | leaving twice equals leaving once |
| ParticipantsMirror.LeaveUndoesJoin | hackpub/src/utils/localStorage.ts:90-122 | if the hackathon exists, had no entry for the user, and the `user` slot holds that same user, then a join followed by a leave restores its participant list |
| LocalStorage.Store.constructor | hackpub/src/utils/localStorage.ts:3-6 | a storage with nothing written: empty table and index, both user slots absent; the index starts with no repeats |
| LocalStorage.Store.GetHackathons | hackpub/src/utils/localStorage.ts:9-14 | `[]` without a window, otherwise the stored list |
| LocalStorage.Store.GetHackathonById | hackpub/src/utils/localStorage.ts:17-20 | nothing without a window or without a match; otherwise the first stored record with the id |
| LocalStorage.Store.GetCurrentUser | hackpub/src/utils/localStorage.ts:51-56 | nothing without a window, otherwise the session slot |
| LocalStorage.Store.GetUserParticipations | hackpub/src/utils/localStorage.ts:66-73 | `[]` without a window or without an entry for the user, otherwise that user's list |
| LocalStorage.Store.HasUserParticipated | hackpub/src/utils/localStorage.ts:126-131 | true exactly when a window exists and the user's stored list contains the hackathon id |
| LocalStorage.Store.AddHackathon | hackpub/src/utils/localStorage.ts:23-29 | the table becomes the old table plus `h` at the end, one longer; `h` is then found by its id if that id was fresh; other slots are unchanged; no-op without a window |
| LocalStorage.Store.UpdateHackathon | hackpub/src/utils/localStorage.ts:32-41 | the table becomes `ReplaceFirst`; without a match nothing changes; with one, a lookup of `h.id` then returns `h`; other slots are unchanged |
| LocalStorage.Store.SaveCurrentUser | hackpub/src/utils/localStorage.ts:44-48 | `getCurrentUser` then returns `u`; only the session slot changes, never the `user` slot |
| LocalStorage.Store.ClearCurrentUser | hackpub/src/utils/localStorage.ts:59-63 | `getCurrentUser` then returns nothing; only the session slot changes |
| LocalStorage.Store.SetAuthUser | hackpub/src/context/AuthContext.tsx:66 | sign-up writes the `user` slot and nothing else |
| LocalStorage.Store.ClearAuthUser | hackpub/src/context/AuthContext.tsx:76 | sign-out removes the `user` slot and nothing else |
| LocalStorage.Store.AddUserParticipation | hackpub/src/utils/localStorage.ts:76-99 | the index becomes `Insert` and the table becomes `JoinMirror` of the old state; the index write stands even when the hackathon is missing; the user has then participated; an index with no repeats keeps none; session slots are unchanged |
| LocalStorage.Store.RemoveUserParticipation | hackpub/src/utils/localStorage.ts:102-123 | the index becomes `RemoveFirst` and the table becomes `LeaveMirror` of the old state; if the user's list, or the whole index, had no repeats, the user has then not participated; an index with no repeats keeps none; session slots are unchanged |
| ParticipantsMirror.JoinedFreshHackathon | hackpub/src/utils/localStorage.ts:90-98 | joining the only hackathon of a table, whose participants are unset, with the joining user in the `user` slot, lists exactly that user's snapshot |
| LocalStorage.ServerRenderScenario | hackpub/src/utils/localStorage.ts:10-131 | without a window, after add, save and join: every reader returns `[]`, nothing or false |
| LocalStorage.JoinScenario | hackpub/src/utils/localStorage.ts:76-131 | create a hackathon, sign up, join: the user has participated and the hackathon's participants is exactly `[snapshot]` |
| LocalStorage.ToggleScenario | hackpub/src/utils/localStorage.ts:76-131 | join, leave, join from a fresh storage: true, false, true |

## Left out
- JSON encoding and decoding: slots hold typed values. A malformed stored string, which would make `JSON.parse` throw, is not representable.
- The ambient `window` and `localStorage` globals are the `Store` object and its `available` flag. Write failures such as a full quota are not modelled.
- JavaScript object-key quirks in the index (for example, a user id named `constructor` reading an inherited property) are not modelled. The index is a plain map from strings.
- The `user &&` test at localStorage.ts:94 is not a branch in the model. The parsed value is always a truthy object, because the slot holds only a user record or is absent.
- The `user` slot holds a `User`. A slot holding some other JSON value is outside the model.
- Ids, `createdAt` and `Math.random` user ids are opaque caller-supplied strings. Their generation is nondeterministic.
- Races between tabs sharing the same storage are concurrency and are not modelled.
- Page components, the dashboard's local-only delete, seed data loading, the placeholder image route and the rest of the auth context are React rendering and routing. They are not part of this model.
