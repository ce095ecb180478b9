/**
 * Record shapes of the platform's data model: the users whose statistics the
 * completion evaluator credits, the events they join, the achievement catalog
 * and the ledger of granted achievements.
 */
module Models {

  datatype Option<T> = None | Some(value: T)

  /** The four cumulative statistics kept on every user. */
  datatype Stats = Stats(points: int, eventsCount: int, totalWaste: real, totalArea: real)

  /** A fresh user starts with every statistic at zero. */
  const ZeroStats := Stats(0, 0, 0.0, 0.0)

  /**
   * A catalog entry. `conditionType` is free text in the database; only the
   * three kinds named in `Rules` ever grant anything.
   */
  datatype Achievement = Achievement(id: int, name: string, conditionType: string, conditionValue: int)

  /** One row of the grant table: (user id, achievement id). */
  type Grant = (int, int)

  /** A user whose statistics are updated in place. */
  class User {
    const id: int
    var points: int
    var eventsCount: int
    var totalWaste: real
    var totalArea: real

    constructor (id: int)
      ensures this.id == id
      ensures Snapshot() == ZeroStats
    {
      this.id := id;
      points, eventsCount := 0, 0;
      totalWaste, totalArea := 0.0, 0.0;
    }

    /** The user's statistics as a value. */
    function Snapshot(): (s: Stats)
      reads this
      ensures s.points == points && s.eventsCount == eventsCount
      ensures s.totalWaste == totalWaste && s.totalArea == totalArea
    {
      Stats(points, eventsCount, totalWaste, totalArea)
    }
  }

  /** The ids of a sequence of users, in order. */
  function Ids(users: seq<User>): (ids: seq<int>)
    ensures |ids| == |users|
    ensures forall i :: 0 <= i < |users| ==> ids[i] == users[i].id
  {
    seq(|users|, i requires 0 <= i < |users| => users[i].id)
  }

  /** The statistics of a sequence of users, in order. */
  function Snapshots(users: seq<User>): (ss: seq<Stats>)
    reads users
    ensures |ss| == |users|
    ensures forall i :: 0 <= i < |users| ==> ss[i] == users[i].Snapshot()
  {
    seq(|users|, i requires 0 <= i < |users| reads users => users[i].Snapshot())
  }

  /** No two entries of `s` are equal. */
  predicate NoDup<T(==)>(s: seq<T>)
  {
    forall i, j :: 0 <= i < j < |s| ==> s[i] != s[j]
  }

  /**
   * A cleanup event. Only what the membership and completion rules touch is
   * kept: the organiser, the participant list, the optional cap, and the
   * outcome fields written at completion.
   */
  class Event {
    const creatorId: int
    var participants: seq<User>
    /** `None` is an unset cap; a set cap of 0 is treated like an unset one. */
    var maxParticipants: Option<int>
    var wasteCollected: real
    var areaCleaned: real
    var status: string

    /** The participant table's composite key makes each user appear at most once. */
    predicate Valid()
      reads this
    {
      NoDup(Ids(participants))
    }

    constructor (creatorId: int, maxParticipants: Option<int>)
      ensures this.creatorId == creatorId && this.maxParticipants == maxParticipants
      ensures participants == [] && Valid()
      ensures wasteCollected == 0.0 && areaCleaned == 0.0 && status == "planned"
    {
      this.creatorId := creatorId;
      this.maxParticipants := maxParticipants;
      participants := [];
      wasteCollected, areaCleaned := 0.0, 0.0;
      status := "planned";
    }
  }

  /** The grant table: append-only, with no uniqueness constraint of its own. */
  class GrantLedger {
    var rows: seq<Grant>

    constructor ()
      ensures rows == []
    {
      rows := [];
    }
  }
}
