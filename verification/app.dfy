/**
 * The request handlers that change state: joining and leaving an event, and
 * completing it, which credits every participant and runs the achievement
 * evaluator for each of them against the grant ledger.
 */
module App {
  import opened Models
  import opened Rules

  // ---------------------------------------------------------------------------
  // Achievement evaluation
  // ---------------------------------------------------------------------------

  /**
   * `check_achievements`: walks the catalog in order, skips entries the user
   * already holds, records a ledger row for each entry whose condition the
   * user's current statistics meet, and returns the names granted.
   */
  method CheckAchievements(user: User, catalog: seq<Achievement>, ledger: GrantLedger) returns (names: seq<string>)
    modifies ledger
    ensures ledger.rows == After(user.id, user.Snapshot(), catalog, old(ledger.rows))
    ensures names == Names(Granted(user.id, user.Snapshot(), catalog, old(ledger.rows)))
  {
    var s := user.Snapshot();
    ghost var rows0 := ledger.rows;
    ghost var granted: seq<Achievement> := [];
    names := [];
    var i := 0;
    while i < |catalog|
      invariant 0 <= i <= |catalog|
      invariant ledger.rows == rows0 + Rows(user.id, granted)
      invariant names == Names(granted)
      invariant granted + Granted(user.id, s, catalog[i..], ledger.rows) == Granted(user.id, s, catalog, rows0)
    {
      var achievement := catalog[i];
      ghost var rest := catalog[i..];
      assert rest[0] == achievement && rest[1..] == catalog[i + 1..];
      GrantedUnfold(user.id, s, rest, ledger.rows);
      var alreadyHas := (user.id, achievement.id) in ledger.rows;
      if !alreadyHas {
        var shouldGrant := false;
        if achievement.conditionType == "events_count" && s.eventsCount >= achievement.conditionValue {
          shouldGrant := true;
        } else if achievement.conditionType == "waste_collected" && s.totalWaste >= achievement.conditionValue as real {
          shouldGrant := true;
        } else if achievement.conditionType == "area_cleaned" && s.totalArea >= achievement.conditionValue as real {
          shouldGrant := true;
        }
        assert shouldGrant == Qualifies(s, achievement);
        if shouldGrant {
          ghost var tail := Granted(user.id, s, catalog[i + 1..], ledger.rows + [(user.id, achievement.id)]);
          assert granted + ([achievement] + tail) == (granted + [achievement]) + tail;
          RowsSnoc(user.id, granted, achievement);
          NamesSnoc(granted, achievement);
          ledger.rows := ledger.rows + [(user.id, achievement.id)];
          names := names + [achievement.name];
          granted := granted + [achievement];
        }
      }
      i := i + 1;
    }
    assert catalog[i..] == [];
  }

  // ---------------------------------------------------------------------------
  // Event completion
  // ---------------------------------------------------------------------------

  /** The participants' ids with their current statistics, in participant order. */
  function Entries(users: seq<User>): (es: seq<Entry>)
    reads users
    ensures |es| == |users|
    ensures forall i :: 0 <= i < |users| ==> es[i] == Entry(users[i].id, users[i].Snapshot())
  {
    seq(|users|, i requires 0 <= i < |users| reads users => Entry(users[i].id, users[i].Snapshot()))
  }

  /** One participant's share of a completed event, added to their statistics in place. */
  method CreditParticipant(participant: User, waste: real, area: real, participantCount: nat, pointsPerPerson: int)
    requires participantCount > 0
    modifies participant
    ensures participant.Snapshot() == Credit(old(participant.Snapshot()), waste, area, participantCount, pointsPerPerson)
  {
    participant.points := participant.points + pointsPerPerson;
    participant.eventsCount := participant.eventsCount + 1;
    participant.totalWaste := participant.totalWaste + waste / participantCount as real;
    participant.totalArea := participant.totalArea + area / participantCount as real;
  }

  /** Participants are told apart by id, so no user appears twice. */
  predicate DistinctParticipants(ps: seq<User>)
  {
    NoDup(Ids(ps))
  }

  /** In a list without repeated ids, the user at `i` appears nowhere else. */
  lemma DistinctAt(ps: seq<User>, i: nat)
    requires DistinctParticipants(ps) && i < |ps|
    ensures forall j :: 0 <= j < |ps| && j != i ==> ps[j] != ps[i]
  {
    forall j | 0 <= j < |ps| && j != i ensures ps[j] != ps[i] {
      assert Ids(ps)[j] == ps[j].id && Ids(ps)[i] == ps[i].id;
    }
  }

  /**
   * The distribution loop of `complete_event`: with at least one participant,
   * each participant in turn is credited the full point award, one event and
   * an equal share of waste and area, and the evaluator then runs on their new
   * statistics. Returns the names granted to each participant.
   */
  method DistributeRewards(ps: seq<User>, waste: real, area: real, catalog: seq<Achievement>, ledger: GrantLedger)
    returns (awarded: seq<seq<string>>)
    requires DistinctParticipants(ps)
    modifies ps, ledger
    ensures |awarded| == |ps|
    ensures ps == [] ==> unchanged(ledger)
    ensures |ps| > 0 ==> AllCredited(old(Snapshots(ps)), Snapshots(ps), waste, area, |ps|, PointsAwarded(waste, area))
    ensures ledger.rows == LedgerAfter(Entries(ps), catalog, old(ledger.rows))
    ensures forall i :: 0 <= i < |ps| ==> awarded[i] == Names(GrantsAt(Entries(ps), catalog, old(ledger.rows), i))
  {
    if ps == [] {
      awarded := [];
      assert Entries(ps) == [];
      return;
    }
    ghost var initial := Snapshots(ps);
    ghost var credited := seq(|ps|, j requires 0 <= j < |ps| =>
      Credit(initial[j], waste, area, |ps|, PointsAwarded(waste, area)));
    ghost var done;
    awarded, done := RewardEach(ps, waste, area, catalog, ledger, initial, credited);
    assert Snapshots(ps) == credited;
    assert done == Entries(ps);
  }

  /** The loop itself, stated over the statistics every participant is to end with. */
  method RewardEach(ps: seq<User>, waste: real, area: real, catalog: seq<Achievement>, ledger: GrantLedger,
                    ghost initial: seq<Stats>, ghost credited: seq<Stats>)
    returns (awarded: seq<seq<string>>, ghost done: seq<Entry>)
    requires DistinctParticipants(ps) && |ps| > 0
    requires initial == Snapshots(ps) && |credited| == |ps|
    requires forall j :: 0 <= j < |ps| ==> credited[j] == Credit(initial[j], waste, area, |ps|, PointsAwarded(waste, area))
    modifies ps, ledger
    ensures |awarded| == |done| == |ps|
    ensures forall j :: 0 <= j < |ps| ==> ps[j].Snapshot() == credited[j]
    ensures forall j :: 0 <= j < |ps| ==> done[j] == Entry(ps[j].id, credited[j])
    ensures ledger.rows == LedgerAfter(done, catalog, old(ledger.rows))
    ensures forall j :: 0 <= j < |ps| ==> awarded[j] == Names(GrantsAt(done, catalog, old(ledger.rows), j))
  {
    var pointsPerPerson := PointsAwarded(waste, area);
    var participantCount := |ps|;
    awarded := [];
    done := [];
    ghost var rows0 := ledger.rows;
    var i := 0;
    while i < participantCount
      invariant 0 <= i <= participantCount
      invariant |done| == i && |awarded| == i
      invariant forall j :: 0 <= j < i ==> done[j] == Entry(ps[j].id, credited[j])
      invariant forall j :: 0 <= j < participantCount ==> ps[j].Snapshot() == (if j < i then credited[j] else initial[j])
      invariant ledger.rows == LedgerAfter(done, catalog, rows0)
      invariant forall j :: 0 <= j < i ==> awarded[j] == Names(GrantsAt(done, catalog, rows0, j))
    {
      var participant := ps[i];
      DistinctAt(ps, i);
      CreditParticipant(participant, waste, area, participantCount, pointsPerPerson);
      var newAchievements := CheckAchievements(participant, catalog, ledger);
      ghost var e := Entry(participant.id, participant.Snapshot());
      LedgerAfterSnoc(done, e, catalog, rows0);
      done := done + [e];
      awarded := awarded + [newAchievements];
      i := i + 1;
    }
  }

  datatype CompletionOutcome =
    | NotOrganizer
      /** The names granted to each participant, in participant order. */
    | Completed(awarded: seq<seq<string>>)

  /**
   * `complete_event`: only the organiser may complete. The outcome is
   * recorded on the event, then the rewards are distributed.
   */
  method CompleteEvent(event: Event, actorId: int, waste: real, area: real,
                       catalog: seq<Achievement>, ledger: GrantLedger)
    returns (outcome: CompletionOutcome)
    requires event.Valid()
    modifies event`wasteCollected, event`areaCleaned, event`status, event.participants, ledger
    ensures event.participants == old(event.participants) && event.Valid()
    ensures event.maxParticipants == old(event.maxParticipants)
    ensures event.creatorId != actorId ==>
      outcome == NotOrganizer && unchanged(event) && unchanged(ledger) && unchanged(event.participants)
    ensures event.creatorId == actorId ==> outcome.Completed?
    ensures outcome.Completed? ==>
      event.wasteCollected == waste && event.areaCleaned == area && event.status == "completed"
    ensures outcome.Completed? && event.participants == [] ==> outcome.awarded == [] && unchanged(ledger)
    ensures outcome.Completed? ==> var ps := event.participants;
      && |outcome.awarded| == |ps|
      && (|ps| > 0 ==> AllCredited(old(Snapshots(ps)), Snapshots(ps), waste, area, |ps|, PointsAwarded(waste, area)))
      && ledger.rows == LedgerAfter(Entries(ps), catalog, old(ledger.rows))
      && (forall i :: 0 <= i < |ps| ==>
            outcome.awarded[i] == Names(GrantsAt(Entries(ps), catalog, old(ledger.rows), i)))
  {
    if event.creatorId != actorId {
      return NotOrganizer;
    }
    event.wasteCollected := waste;
    event.areaCleaned := area;
    event.status := "completed";
    var awarded := DistributeRewards(event.participants, waste, area, catalog, ledger);
    return Completed(awarded);
  }

  // ---------------------------------------------------------------------------
  // Membership
  // ---------------------------------------------------------------------------

  datatype JoinOutcome = AlreadyRegistered | NoPlacesLeft | Joined

  /** A cap is in force when `max_participants` is set and non-zero. */
  predicate HasCap(cap: Option<int>)
  {
    cap.Some? && cap.value != 0
  }

  /** The decision `join_event` takes, from the participants' ids, the joining user's id and the cap. */
  function JoinRule(ids: seq<int>, uid: int, cap: Option<int>): (r: JoinOutcome)
    ensures r == AlreadyRegistered <==> uid in ids
    ensures r == NoPlacesLeft <==> uid !in ids && HasCap(cap) && |ids| >= cap.value
    ensures r == Joined <==> uid !in ids && (!HasCap(cap) || |ids| < cap.value)
  {
    if uid in ids then AlreadyRegistered
    else if HasCap(cap) && |ids| >= cap.value then NoPlacesLeft
    else Joined
  }

  /**
   * `join_event`: appends the user unless they are already a participant or
   * a cap is in force and reached. A cap that held before still holds after.
   */
  method JoinEvent(event: Event, user: User) returns (r: JoinOutcome)
    requires event.Valid()
    modifies event`participants
    ensures event.Valid()
    ensures r == JoinRule(Ids(old(event.participants)), user.id, event.maxParticipants)
    ensures r == Joined ==> event.participants == old(event.participants) + [user]
    ensures r != Joined ==> event.participants == old(event.participants)
    ensures HasCap(event.maxParticipants) && |old(event.participants)| <= event.maxParticipants.value ==>
      |event.participants| <= event.maxParticipants.value
  {
    r := JoinRule(Ids(event.participants), user.id, event.maxParticipants);
    if r == Joined {
      ghost var ids := Ids(event.participants);
      event.participants := event.participants + [user];
      assert Ids(event.participants) == ids + [user.id];
    }
  }

  /** The participant list without the first user whose id is `uid`: Python's `list.remove`. */
  function RemoveMember(ps: seq<User>, uid: int): seq<User>
    decreases |ps|
  {
    if ps == [] then []
    else if ps[0].id == uid then ps[1..]
    else [ps[0]] + RemoveMember(ps[1..], uid)
  }

  lemma IdsCons(u: User, r: seq<User>)
    ensures Ids([u] + r) == [u.id] + Ids(r)
  {
    assert |Ids([u] + r)| == |[u.id] + Ids(r)|;
  }

  /** Removal drops exactly one user when one has the id, and changes nothing otherwise. */
  lemma {:induction false} RemoveMemberLength(ps: seq<User>, uid: int)
    ensures uid !in Ids(ps) ==> RemoveMember(ps, uid) == ps
    ensures uid in Ids(ps) ==> |RemoveMember(ps, uid)| == |ps| - 1
    decreases |ps|
  {
    if ps != [] {
      var rest := ps[1..];
      assert ps == [ps[0]] + rest;
      IdsCons(ps[0], rest);
      if ps[0].id != uid {
        RemoveMemberLength(rest, uid);
      }
    }
  }

  lemma NoDupCons(x: int, s: seq<int>)
    requires NoDup(s) && x !in s
    ensures NoDup([x] + s)
  {
    forall i, j | 0 <= i < j < |[x] + s| ensures ([x] + s)[i] != ([x] + s)[j] {
      assert ([x] + s)[j] == s[j - 1];
      if i > 0 { assert ([x] + s)[i] == s[i - 1]; }
    }
  }

  /** The tail of a list without repeated ids has none either, and no user sharing the head's id. */
  lemma NoDupTail(ps: seq<User>)
    requires ps != [] && NoDup(Ids(ps))
    ensures NoDup(Ids(ps[1..]))
    ensures forall u :: u in ps[1..] ==> u.id != ps[0].id
  {
    var rest := ps[1..];
    forall i, j | 0 <= i < j < |rest| ensures Ids(rest)[i] != Ids(rest)[j] {
      assert Ids(rest)[i] == Ids(ps)[i + 1] && Ids(rest)[j] == Ids(ps)[j + 1];
    }
    forall u | u in rest ensures u.id != ps[0].id {
      var k :| 0 <= k < |rest| && rest[k] == u;
      assert Ids(ps)[k + 1] == u.id && Ids(ps)[0] == ps[0].id;
    }
  }

  /** On a list without repeated ids, removal keeps exactly the users with a different id. */
  lemma {:induction false} RemoveMemberKeeps(ps: seq<User>, uid: int)
    requires NoDup(Ids(ps))
    ensures forall u :: u in RemoveMember(ps, uid) <==> u in ps && u.id != uid
    decreases |ps|
  {
    if ps != [] {
      var rest := ps[1..];
      assert ps == [ps[0]] + rest;
      NoDupTail(ps);
      if ps[0].id != uid {
        RemoveMemberKeeps(rest, uid);
      }
    }
  }

  /** Splitting a list without repeats at its head. */
  lemma NoDupUncons(x: int, s: seq<int>)
    requires NoDup([x] + s)
    ensures NoDup(s) && x !in s
  {
    forall i, j | 0 <= i < j < |s| ensures s[i] != s[j] {
      assert s[i] == ([x] + s)[i + 1] && s[j] == ([x] + s)[j + 1];
    }
    forall k | 0 <= k < |s| ensures s[k] != x {
      assert s[k] == ([x] + s)[k + 1] && x == ([x] + s)[0];
    }
  }

  /**
   * On a list without repeated ids, every id left after removal was there
   * before and differs from `uid`.
   */
  lemma {:induction false} RemoveMemberIds(ps: seq<User>, uid: int)
    requires NoDup(Ids(ps))
    ensures forall x :: x in Ids(RemoveMember(ps, uid)) ==> x in Ids(ps) && x != uid
    decreases |ps|
  {
    if ps != [] {
      var rest := ps[1..];
      assert ps == [ps[0]] + rest;
      IdsCons(ps[0], rest);
      NoDupUncons(ps[0].id, Ids(rest));
      RemoveMemberIds(rest, uid);
      if ps[0].id != uid {
        IdsCons(ps[0], RemoveMember(rest, uid));
      }
    }
  }

  /**
   * On a list without repeated ids, removal keeps ids distinct and leaves no
   * member with `uid`.
   */
  lemma {:induction false} RemoveMemberClears(ps: seq<User>, uid: int)
    requires NoDup(Ids(ps))
    ensures NoDup(Ids(RemoveMember(ps, uid)))
    ensures uid !in Ids(RemoveMember(ps, uid))
    decreases |ps|
  {
    RemoveMemberIds(ps, uid);
    if ps != [] {
      var rest := ps[1..];
      assert ps == [ps[0]] + rest;
      IdsCons(ps[0], rest);
      NoDupUncons(ps[0].id, Ids(rest));
      if ps[0].id != uid {
        var r' := RemoveMember(rest, uid);
        RemoveMemberClears(rest, uid);
        RemoveMemberIds(rest, uid);
        IdsCons(ps[0], r');
        NoDupCons(ps[0].id, Ids(r'));
      }
    }
  }

  /**
   * `leave_event`: removes the user if they are a participant and otherwise
   * changes nothing.
   */
  method LeaveEvent(event: Event, user: User) returns (left: bool)
    requires event.Valid()
    modifies event`participants
    ensures event.Valid()
    ensures left <==> user.id in Ids(old(event.participants))
    ensures event.participants == RemoveMember(old(event.participants), user.id)
    ensures user.id !in Ids(event.participants)
    ensures left ==> |event.participants| == |old(event.participants)| - 1
  {
    left := user.id in Ids(event.participants);
    RemoveMemberLength(event.participants, user.id);
    if left {
      RemoveMemberClears(event.participants, user.id);
      event.participants := RemoveMember(event.participants, user.id);
    }
  }
}
