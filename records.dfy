/** Row shapes of the two tables the split-creation route writes: `splits` and
    `participants`, with the columns and defaults of lib/db.ts. */
module Records {

  datatype Option<+T> = None | Some(value: T)

  /** Identifiers are the text of a UUID; the model treats them as opaque strings. */
  type Id = string

  /** SQLite's CURRENT_TIMESTAMP text, supplied by the caller. */
  type Timestamp = string

  /** One row of `splits`. Amounts are integers in paise. */
  datatype Split = Split(
    id: Id,
    description: string,
    totalAmount: int,
    numberOfPeople: int,
    perPersonAmount: int,
    creatorName: string,
    creatorUpiId: string,
    createdAt: Timestamp)

  /** One row of `participants`; `hasPaid` defaults to false (0) and
      `markedPaidAt` to NULL. */
  datatype Participant = Participant(
    id: Id,
    splitId: Id,
    name: string,
    hasPaid: bool,
    markedPaidAt: Option<Timestamp>)

  function SplitIds(splits: seq<Split>): (ids: set<Id>)
    ensures forall i :: 0 <= i < |splits| ==> splits[i].id in ids
    ensures forall id :: id in ids ==> exists i :: 0 <= i < |splits| && splits[i].id == id
  {
    set i | 0 <= i < |splits| :: splits[i].id
  }

  function ParticipantIds(participants: seq<Participant>): (ids: set<Id>)
    ensures forall i :: 0 <= i < |participants| ==> participants[i].id in ids
    ensures forall id :: id in ids ==> exists i :: 0 <= i < |participants| && participants[i].id == id
  {
    set i | 0 <= i < |participants| :: participants[i].id
  }

  /** The PRIMARY KEY of `splits`: no two rows share an id. */
  ghost predicate UniqueSplitIds(splits: seq<Split>)
  {
    forall i, j :: 0 <= i < j < |splits| ==> splits[i].id != splits[j].id
  }

  /** The PRIMARY KEY of `participants`: no two rows share an id. */
  ghost predicate UniqueParticipantIds(participants: seq<Participant>)
  {
    forall i, j :: 0 <= i < j < |participants| ==> participants[i].id != participants[j].id
  }

  /** The FOREIGN KEY of `participants`: every row names an existing split. */
  ghost predicate SplitsReferenced(splits: seq<Split>, participants: seq<Participant>)
  {
    forall i :: 0 <= i < |participants| ==> participants[i].splitId in SplitIds(splits)
  }
}
