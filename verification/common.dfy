/** Values shared by every part of the model: the failure wrappers, the
    exceptions the job can raise, and the asset records the photo service
    returns. */
module Common {

  datatype Option<T> = None | Some(value: T)

  /** The exceptions that escape from the selection code, plus one that only
      the model has: `RetriesExhausted` stands for the acceptance loop still
      running when its fuel is spent (the loop itself has no bound). */
  datatype Error =
    | ValueError        // `datetime.replace` onto a day the target year lacks
    | OverflowError     // a date-time moved before 0001-01-01
    | KeyError          // a missing dictionary key, or `pop()` on an empty set
    | IndexError        // `random.choice` on an empty list
    | RetriesExhausted

  datatype Result<T> = Ok(value: T) | Err(error: Error)

  /** One entry of an asset's `people` list. */
  datatype Person = Person(id: string, name: string)

  /** A search result. `fileCreatedAt` is the ISO-8601 text the service
      sends; `takenAt` is the same instant in microseconds since the epoch,
      the value the spacing test compares. */
  datatype Asset = Asset(id: string, fileCreatedAt: string, takenAt: int, people: seq<Person>)

  /** Whether some entry of the asset's `people` has the given id. */
  predicate HasPerson(a: Asset, personId: string)
  {
    exists k :: 0 <= k < |a.people| && a.people[k].id == personId
  }

  /** No element occurs twice. */
  predicate NoDuplicates<T(==)>(s: seq<T>)
  {
    forall i, j :: 0 <= i < j < |s| ==> s[i] != s[j]
  }
}
