/**
 * The achievement catalog the application seeds at start-up, and worked
 * examples of completing events against it.
 */
module DefaultCatalog {
  import opened Models
  import opened Rules
  import opened App

  /** The six seeded achievements, with ids in insertion order. */
  function Catalog(): (c: seq<Achievement>)
    ensures |c| == 6 && DistinctIds(c)
    ensures forall a :: a in c ==> KnownKind(a.conditionType) && a.conditionValue > 0
  {
    [ Achievement(1, "Перші кроки", "events_count", 1),
      Achievement(2, "Активіст", "events_count", 5),
      Achievement(3, "Герой чистоти", "events_count", 20),
      Achievement(4, "Збирач", "waste_collected", 10),
      Achievement(5, "Еко-воїн", "waste_collected", 100),
      Achievement(6, "Очищувач", "area_cleaned", 100) ]
  }

  /**
   * A new user alone at an event that collected 10 kg: 100 points, one event,
   * 10 kg, and two thresholds crossed at once, "Перші кроки" and "Збирач".
   */
  lemma FirstEventExample(uid: int)
    ensures var s := Credit(ZeroStats, 10.0, 0.0, 1, PointsAwarded(10.0, 0.0));
      && s == Stats(100, 1, 10.0, 0.0)
      && Names(Granted(uid, s, Catalog(), [])) == ["Перші кроки", "Збирач"]
  {
    assert PointsAwarded(10.0, 0.0) == 100;
    assert Credit(ZeroStats, 10.0, 0.0, 1, 100) == Stats(100, 1, 10.0, 0.0);
    FirstEventGrants(uid);
  }

  /** The grants of the first example: both thresholds crossed, in catalog order. */
  lemma FirstEventGrants(uid: int)
    ensures Names(Granted(uid, Stats(100, 1, 10.0, 0.0), Catalog(), [])) == ["Перші кроки", "Збирач"]
  {
    var s := Stats(100, 1, 10.0, 0.0);
    var c := Catalog();
    var l1 := [(uid, 1)];
    assert Qualifies(s, c[0]) by {
      assert c[0].conditionType == "events_count";
    }
    assert [] + [(uid, c[0].id)] == l1;
    assert Granted(uid, s, c[1..], l1) == [c[3]] by {
      HeldTail(uid, s, c, l1, l1 + [(uid, 4)]);
    }
    assert Granted(uid, s, c, []) == [c[0], c[3]] by {
      GrantedUnfold(uid, s, c, []);
    }
    assert c[0].name == "Перші кроки" && c[3].name == "Збирач";
  }

  /** The walk over entries 2 to 6 once entry 1 is held: only entry 4 is granted. */
  lemma HeldTail(uid: int, s: Stats, c: seq<Achievement>, l1: seq<Grant>, l4: seq<Grant>)
    requires c == Catalog() && s == Stats(100, 1, 10.0, 0.0) && l1 == [(uid, 1)] && l4 == l1 + [(uid, 4)]
    ensures Granted(uid, s, c[1..], l1) == [c[3]]
  {
    assert !Qualifies(s, c[1]) && !Qualifies(s, c[2]) && Qualifies(s, c[3]) && !Qualifies(s, c[4]) && !Qualifies(s, c[5]) by {
      assert c[1].conditionType == "events_count" && c[2].conditionType == "events_count";
      assert c[3].conditionType == "waste_collected" && c[4].conditionType == "waste_collected";
      assert c[5].conditionType == "area_cleaned";
    }
    assert Granted(uid, s, c[5..], l4) == [] by {
      GrantedUnfold(uid, s, c[5..], l4);
      assert c[5..][1..] == [];
    }
    assert Granted(uid, s, c[4..], l4) == [] by {
      GrantedUnfold(uid, s, c[4..], l4);
      assert c[4..][1..] == c[5..];
    }
    assert Granted(uid, s, c[3..], l1) == [c[3]] by {
      GrantedUnfold(uid, s, c[3..], l1);
      assert c[3..][1..] == c[4..];
      assert (uid, 4) !in l1;
    }
    assert Granted(uid, s, c[2..], l1) == [c[3]] by {
      GrantedUnfold(uid, s, c[2..], l1);
      assert c[2..][1..] == c[3..];
    }
    GrantedUnfold(uid, s, c[1..], l1);
    assert c[1..][1..] == c[2..];
  }

  /**
   * Two participants share 5 kg: each gets the full 50 points but only
   * 2.5 kg of waste.
   */
  lemma SharedEventExample()
    ensures Credit(ZeroStats, 5.0, 0.0, 2, PointsAwarded(5.0, 0.0)) == Stats(50, 1, 2.5, 0.0)
  {
    assert PointsAwarded(5.0, 0.0) == 50;
  }

  /**
   * A user who already holds "Перші кроки" and reaches 10 kg is granted only
   * "Збирач": a held achievement is never granted again.
   */
  lemma HeldAchievementExample(uid: int)
    ensures Names(Granted(uid, Stats(100, 1, 10.0, 0.0), Catalog(), [(uid, 1)])) == ["Збирач"]
  {
    var s := Stats(100, 1, 10.0, 0.0);
    var c := Catalog();
    var l1 := [(uid, 1)];
    HeldTail(uid, s, c, l1, l1 + [(uid, 4)]);
    assert Granted(uid, s, c, l1) == [c[3]] by {
      GrantedUnfold(uid, s, c, l1);
    }
    assert c[3].name == "Збирач";
  }

  /**
   * The handlers end to end: a new user joins a new event, its organiser
   * completes it with 10 kg, and the user is reported both achievements and
   * credited 100 points.
   */
  method CompletionScenario() returns (joined: JoinOutcome, awarded: seq<seq<string>>, points: int)
    ensures joined == Joined
    ensures awarded == [["Перші кроки", "Збирач"]]
    ensures points == 100
  {
    var event, volunteer;
    event, volunteer, joined := JoinScenario();
    var ledger := new GrantLedger();
    var catalog := Catalog();
    ghost var before := Snapshots([volunteer]);
    assert before[0] == ZeroStats;
    var outcome := CompleteEvent(event, 1, 10.0, 0.0, catalog, ledger);
    ghost var s := Stats(100, 1, 10.0, 0.0);
    assert volunteer.Snapshot() == s by {
      assert Snapshots([volunteer])[0] == Credit(before[0], 10.0, 0.0, 1, PointsAwarded(10.0, 0.0));
      FirstEventExample(2);
    }
    assert Entries([volunteer]) == [Entry(2, s)];
    assert outcome.awarded[0] == Names(Granted(2, s, catalog, [])) by {
      GrantsAtFirst(Entry(2, s), catalog, []);
    }
    FirstEventExample(2);
    awarded := outcome.awarded;
    assert awarded == [awarded[0]];
    points := volunteer.points;
  }

  /** The first half of the scenario: user 2 joins an uncapped event organised by user 1. */
  method JoinScenario() returns (event: Event, volunteer: User, joined: JoinOutcome)
    ensures fresh(event) && fresh(volunteer)
    ensures event.creatorId == 1 && event.participants == [volunteer] && event.Valid()
    ensures volunteer.id == 2 && volunteer.Snapshot() == ZeroStats
    ensures joined == Joined
  {
    var organiser := new User(1);
    volunteer := new User(2);
    event := new Event(organiser.id, None);
    joined := JoinEvent(event, volunteer);
  }

  /** The grants of a completion with a single participant. */
  lemma GrantsAtFirst(e: Entry, catalog: seq<Achievement>, ledger: seq<Grant>)
    ensures GrantsAt([e], catalog, ledger, 0) == Granted(e.uid, e.stats, catalog, ledger)
  {
    assert [e][..0] == [];
  }
}
