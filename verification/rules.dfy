/**
 * The rule content of event completion, as values: how many points an event
 * is worth, how a participant's statistics are credited, and which catalog
 * achievements a user is granted against a grant ledger.
 */
module Rules {
  import opened Models

  // ---------------------------------------------------------------------------
  // Points and statistics credit
  // ---------------------------------------------------------------------------

  /** Python's `int(x)` on a float: truncation toward zero. */
  function Trunc(x: real): (r: int)
    ensures x >= 0.0 ==> 0 <= r && r as real <= x < r as real + 1.0
    ensures x < 0.0 ==> r <= 0 && x <= r as real && (r as real) - 1.0 < x
  {
    if x >= 0.0 then x.Floor else -((-x).Floor)
  }

  /** The points every participant receives for an event with the given outcome. */
  function PointsAwarded(waste: real, area: real): (p: int)
    ensures waste >= 0.0 && area >= 0.0 ==> 0 <= p && p as real <= waste * 10.0 + area * 2.0 < p as real + 1.0
  {
    Trunc(waste * 10.0 + area * 2.0)
  }

  /**
   * One participant's statistics after an event with `n` participants: the
   * full point award, one more event, and an equal share of waste and area.
   */
  function Credit(s: Stats, waste: real, area: real, n: nat, pts: int): Stats
    requires n > 0
  {
    Stats(s.points + pts, s.eventsCount + 1, s.totalWaste + waste / n as real, s.totalArea + area / n as real)
  }

  /**
   * Each participant gets the whole point award but only an `n`-th of the
   * waste and area: `n` times the share is the event's total.
   */
  lemma CreditSplitsEvenly(s: Stats, waste: real, area: real, n: nat, pts: int)
    requires n > 0
    ensures var t := Credit(s, waste, area, n, pts);
      && t.points - s.points == pts && t.eventsCount == s.eventsCount + 1
      && (t.totalWaste - s.totalWaste) * (n as real) == waste
      && (t.totalArea - s.totalArea) * (n as real) == area
  {
    var t := Credit(s, waste, area, n, pts);
    assert t.totalWaste - s.totalWaste == waste / n as real;
    assert t.totalArea - s.totalArea == area / n as real;
  }

  /** Total waste credited across a group: the sum of each member's increase. */
  function WasteGain(before: seq<Stats>, after: seq<Stats>): real
    requires |before| == |after|
  {
    if before == [] then 0.0
    else WasteGain(before[1..], after[1..]) + (after[0].totalWaste - before[0].totalWaste)
  }

  /** Total area credited across a group: the sum of each member's increase. */
  function AreaGain(before: seq<Stats>, after: seq<Stats>): real
    requires |before| == |after|
  {
    if before == [] then 0.0
    else AreaGain(before[1..], after[1..]) + (after[0].totalArea - before[0].totalArea)
  }

  /** Every member of `after` is the matching member of `before`, credited for one event. */
  predicate AllCredited(before: seq<Stats>, after: seq<Stats>, waste: real, area: real, n: nat, pts: int)
    requires n > 0
  {
    |before| == |after| && forall i :: 0 <= i < |before| ==> after[i] == Credit(before[i], waste, area, n, pts)
  }

  lemma {:induction false} GainsOfShares(before: seq<Stats>, after: seq<Stats>, waste: real, area: real, n: nat, pts: int)
    requires n > 0 && AllCredited(before, after, waste, area, n, pts)
    ensures WasteGain(before, after) == (|before| as real) * (waste / n as real)
    ensures AreaGain(before, after) == (|before| as real) * (area / n as real)
  {
    if before != [] {
      assert AllCredited(before[1..], after[1..], waste, area, n, pts) by {
        forall i | 0 <= i < |before| - 1
          ensures after[1..][i] == Credit(before[1..][i], waste, area, n, pts)
        {
          assert after[1..][i] == after[i + 1] && before[1..][i] == before[i + 1];
        }
      }
      GainsOfShares(before[1..], after[1..], waste, area, n, pts);
      assert after[0] == Credit(before[0], waste, area, n, pts);
    }
  }

  /**
   * Splitting waste and area equally loses nothing: over all `n` participants
   * the increases add up to exactly the event's waste and area.
   */
  lemma SharesSumToTotal(before: seq<Stats>, after: seq<Stats>, waste: real, area: real, pts: int)
    requires |before| > 0 && AllCredited(before, after, waste, area, |before|, pts)
    ensures WasteGain(before, after) == waste
    ensures AreaGain(before, after) == area
  {
    var n := |before|;
    GainsOfShares(before, after, waste, area, n, pts);
    assert (n as real) * (waste / n as real) == waste;
    assert (n as real) * (area / n as real) == area;
  }

  /** With a non-negative outcome, no statistic ever decreases. */
  lemma CreditNeverDecreases(s: Stats, waste: real, area: real, n: nat)
    requires n > 0 && waste >= 0.0 && area >= 0.0
    ensures var t := Credit(s, waste, area, n, PointsAwarded(waste, area));
      t.points >= s.points && t.eventsCount == s.eventsCount + 1 &&
      t.totalWaste >= s.totalWaste && t.totalArea >= s.totalArea
  {
    CreditSplitsEvenly(s, waste, area, n, PointsAwarded(waste, area));
  }

  // ---------------------------------------------------------------------------
  // Achievement conditions
  // ---------------------------------------------------------------------------

  /** The three condition kinds the evaluator knows. */
  predicate KnownKind(kind: string)
  {
    kind == "events_count" || kind == "waste_collected" || kind == "area_cleaned"
  }

  /** The `if`/`elif` chain deciding whether a user's statistics meet an achievement's condition. */
  predicate Qualifies(s: Stats, a: Achievement)
  {
    if a.conditionType == "events_count" && s.eventsCount >= a.conditionValue then true
    else if a.conditionType == "waste_collected" && s.totalWaste >= a.conditionValue as real then true
    else if a.conditionType == "area_cleaned" && s.totalArea >= a.conditionValue as real then true
    else false
  }

  /** The condition holds exactly when its kind is known and the matching statistic reaches the threshold. */
  lemma QualifiesIff(s: Stats, a: Achievement)
    ensures Qualifies(s, a) <==>
      (a.conditionType == "events_count" && s.eventsCount >= a.conditionValue) ||
      (a.conditionType == "waste_collected" && s.totalWaste >= a.conditionValue as real) ||
      (a.conditionType == "area_cleaned" && s.totalArea >= a.conditionValue as real)
    ensures !KnownKind(a.conditionType) ==> !Qualifies(s, a)
  {
  }

  /** The ledger rows recording that `uid` was granted each of `granted`. */
  function Rows(uid: int, granted: seq<Achievement>): (rows: seq<Grant>)
    ensures |rows| == |granted|
    ensures forall i :: 0 <= i < |rows| ==> rows[i].0 == uid && rows[i].1 == granted[i].id
  {
    seq(|granted|, i requires 0 <= i < |granted| => (uid, granted[i].id))
  }

  /** The names of `granted`, in order: what the evaluator reports. */
  function Names(granted: seq<Achievement>): (names: seq<string>)
    ensures |names| == |granted|
    ensures forall i :: 0 <= i < |names| ==> names[i] == granted[i].name
  {
    seq(|granted|, i requires 0 <= i < |granted| => granted[i].name)
  }

  /**
   * The achievements newly granted to user `uid` with statistics `s`, walking
   * the catalog in order. An entry is granted when the ledger has no row for
   * it and its condition holds; the row is visible to the rest of the walk.
   */
  function Granted(uid: int, s: Stats, catalog: seq<Achievement>, ledger: seq<Grant>): (r: seq<Achievement>)
    ensures |r| <= |catalog|
    decreases |catalog|
  {
    if catalog == [] then []
    else
      var a := catalog[0];
      if (uid, a.id) !in ledger && Qualifies(s, a) then [a] + Granted(uid, s, catalog[1..], ledger + [(uid, a.id)])
      else Granted(uid, s, catalog[1..], ledger)
  }

  /**
   * Everything granted comes from the catalog, has a known kind whose
   * condition holds, and was not held before.
   */
  lemma {:induction false} GrantedSound(uid: int, s: Stats, catalog: seq<Achievement>, ledger: seq<Grant>)
    ensures forall a :: a in Granted(uid, s, catalog, ledger) ==>
      a in catalog && Qualifies(s, a) && KnownKind(a.conditionType) && (uid, a.id) !in ledger
    decreases |catalog|
  {
    if catalog != [] {
      var a := catalog[0];
      var rest := catalog[1..];
      if (uid, a.id) !in ledger && Qualifies(s, a) {
        GrantedSound(uid, s, rest, ledger + [(uid, a.id)]);
      } else {
        GrantedSound(uid, s, rest, ledger);
      }
      forall b | b in rest ensures b in catalog {
      }
    }
  }

  /** One step of the walk over the catalog. */
  lemma GrantedUnfold(uid: int, s: Stats, catalog: seq<Achievement>, ledger: seq<Grant>)
    requires catalog != []
    ensures Granted(uid, s, catalog, ledger) ==
      if (uid, catalog[0].id) !in ledger && Qualifies(s, catalog[0])
      then [catalog[0]] + Granted(uid, s, catalog[1..], ledger + [(uid, catalog[0].id)])
      else Granted(uid, s, catalog[1..], ledger)
  {
  }

  lemma RowsSnoc(uid: int, granted: seq<Achievement>, a: Achievement)
    ensures Rows(uid, granted + [a]) == Rows(uid, granted) + [(uid, a.id)]
  {
    assert |Rows(uid, granted + [a])| == |Rows(uid, granted) + [(uid, a.id)]|;
  }

  lemma NamesSnoc(granted: seq<Achievement>, a: Achievement)
    ensures Names(granted + [a]) == Names(granted) + [a.name]
  {
    assert |Names(granted + [a])| == |Names(granted) + [a.name]|;
  }

  /** The ledger after the evaluator has run for `uid`. */
  function After(uid: int, s: Stats, catalog: seq<Achievement>, ledger: seq<Grant>): seq<Grant>
  {
    ledger + Rows(uid, Granted(uid, s, catalog, ledger))
  }

  /** No two catalog entries share an id (the id is the table's primary key). */
  predicate DistinctIds(catalog: seq<Achievement>)
  {
    forall i, j :: 0 <= i < j < |catalog| ==> catalog[i].id != catalog[j].id
  }

  /**
   * Reference definition: the catalog entries, in catalog order, whose
   * condition holds and which `ledger` does not already record for `uid`.
   */
  function Eligible(uid: int, s: Stats, catalog: seq<Achievement>, ledger: seq<Grant>): seq<Achievement>
  {
    if catalog == [] then []
    else
      (if (uid, catalog[0].id) !in ledger && Qualifies(s, catalog[0]) then [catalog[0]] else [])
      + Eligible(uid, s, catalog[1..], ledger)
  }

  /** Two ledgers record the same grants of `catalog` to `uid`. */
  predicate AgreeOn(uid: int, catalog: seq<Achievement>, l1: seq<Grant>, l2: seq<Grant>)
  {
    forall a :: a in catalog ==> ((uid, a.id) in l1 <==> (uid, a.id) in l2)
  }

  lemma {:induction false} GrantedMatchesEligible(uid: int, s: Stats, catalog: seq<Achievement>, l1: seq<Grant>, l2: seq<Grant>)
    requires DistinctIds(catalog) && AgreeOn(uid, catalog, l1, l2)
    ensures Granted(uid, s, catalog, l1) == Eligible(uid, s, catalog, l2)
    decreases |catalog|
  {
    if catalog != [] {
      var a := catalog[0];
      var rest := catalog[1..];
      assert DistinctIds(rest) by {
        forall i, j | 0 <= i < j < |rest| ensures rest[i].id != rest[j].id {
          assert rest[i] == catalog[i + 1] && rest[j] == catalog[j + 1];
        }
      }
      assert a in catalog;
      if (uid, a.id) !in l1 && Qualifies(s, a) {
        assert AgreeOn(uid, rest, l1 + [(uid, a.id)], l2) by {
          forall b | b in rest ensures (uid, b.id) in l1 + [(uid, a.id)] <==> (uid, b.id) in l2 {
            var k :| 0 <= k < |rest| && rest[k] == b;
            assert catalog[k + 1] == b;
            assert b.id != a.id;
            assert b in catalog;
          }
        }
        GrantedMatchesEligible(uid, s, rest, l1 + [(uid, a.id)], l2);
      } else {
        assert AgreeOn(uid, rest, l1, l2) by {
          forall b | b in rest ensures (uid, b.id) in l1 <==> (uid, b.id) in l2 {
            assert b in catalog;
          }
        }
        GrantedMatchesEligible(uid, s, rest, l1, l2);
      }
    }
  }

  /**
   * With distinct catalog ids, the grants are exactly the eligible entries in
   * catalog order: an entry is granted if and only if it is not held and its
   * condition holds.
   */
  lemma GrantedIsEligible(uid: int, s: Stats, catalog: seq<Achievement>, ledger: seq<Grant>)
    requires DistinctIds(catalog)
    ensures Granted(uid, s, catalog, ledger) == Eligible(uid, s, catalog, ledger)
  {
    GrantedMatchesEligible(uid, s, catalog, ledger, ledger);
  }

  lemma {:induction false} EligibleMembers(uid: int, s: Stats, catalog: seq<Achievement>, ledger: seq<Grant>, a: Achievement)
    ensures a in Eligible(uid, s, catalog, ledger) <==> a in catalog && (uid, a.id) !in ledger && Qualifies(s, a)
    decreases |catalog|
  {
    if catalog != [] {
      EligibleMembers(uid, s, catalog[1..], ledger, a);
      assert catalog == [catalog[0]] + catalog[1..];
    }
  }

  /** Grant exactly when not held and the condition holds (catalog ids distinct). */
  lemma GrantedIff(uid: int, s: Stats, catalog: seq<Achievement>, ledger: seq<Grant>, a: Achievement)
    requires DistinctIds(catalog)
    ensures a in Granted(uid, s, catalog, ledger) <==> a in catalog && (uid, a.id) !in ledger && Qualifies(s, a)
  {
    GrantedIsEligible(uid, s, catalog, ledger);
    EligibleMembers(uid, s, catalog, ledger, a);
  }

  lemma RowsCons(uid: int, a: Achievement, g: seq<Achievement>)
    ensures Rows(uid, [a] + g) == [(uid, a.id)] + Rows(uid, g)
  {
    var l, r := Rows(uid, [a] + g), [(uid, a.id)] + Rows(uid, g);
    assert |l| == |r|;
    forall i | 0 <= i < |l| ensures l[i] == r[i] {
      if i > 0 { assert ([a] + g)[i] == g[i - 1]; }
    }
  }

  /** One step of the walk: `After` on a catalog is `After` on its tail, from the ledger after the head. */
  lemma AfterStep(uid: int, s: Stats, catalog: seq<Achievement>, ledger: seq<Grant>)
    requires catalog != []
    ensures var a := catalog[0];
      After(uid, s, catalog, ledger) ==
        if (uid, a.id) !in ledger && Qualifies(s, a) then After(uid, s, catalog[1..], ledger + [(uid, a.id)])
        else After(uid, s, catalog[1..], ledger)
  {
    var a := catalog[0];
    if (uid, a.id) !in ledger && Qualifies(s, a) {
      var l' := ledger + [(uid, a.id)];
      var g := Granted(uid, s, catalog[1..], l');
      assert Granted(uid, s, catalog, ledger) == [a] + g;
      RowsCons(uid, a, g);
      assert ledger + ([(uid, a.id)] + Rows(uid, g)) == l' + Rows(uid, g);
      assert After(uid, s, catalog, ledger) == ledger + Rows(uid, [a] + g);
      assert After(uid, s, catalog[1..], l') == l' + Rows(uid, g);
    } else {
      assert Granted(uid, s, catalog, ledger) == Granted(uid, s, catalog[1..], ledger);
    }
  }

  /**
   * The evaluator never records a second row for a grant: if the ledger has no
   * duplicate rows, neither has the ledger after it. This holds whatever the
   * catalog, because each new row is checked against the rows added before it.
   */
  lemma {:induction false} AfterKeepsNoDup(uid: int, s: Stats, catalog: seq<Achievement>, ledger: seq<Grant>)
    requires NoDup(ledger)
    ensures NoDup(After(uid, s, catalog, ledger))
    decreases |catalog|
  {
    if catalog != [] {
      var a := catalog[0];
      var rest := catalog[1..];
      if (uid, a.id) !in ledger && Qualifies(s, a) {
        var l' := ledger + [(uid, a.id)];
        assert NoDup(l') by {
          forall i, j | 0 <= i < j < |l'| ensures l'[i] != l'[j] {
            if j == |ledger| { assert l'[i] == ledger[i]; assert ledger[i] in ledger; }
          }
        }
        AfterKeepsNoDup(uid, s, rest, l');
      } else {
        AfterKeepsNoDup(uid, s, rest, ledger);
      }
      AfterStep(uid, s, catalog, ledger);
    }
  }

  /** The evaluator only appends: every earlier row is kept, and every new row belongs to `uid`. */
  lemma AfterExtends(uid: int, s: Stats, catalog: seq<Achievement>, ledger: seq<Grant>)
    ensures ledger <= After(uid, s, catalog, ledger)
    ensures forall g :: g in After(uid, s, catalog, ledger) && g !in ledger ==> g.0 == uid
  {
  }

  /**
   * After the evaluator has run, every catalog achievement whose condition
   * holds for the user is recorded in the ledger.
   */
  lemma {:induction false} AfterSaturates(uid: int, s: Stats, catalog: seq<Achievement>, ledger: seq<Grant>)
    ensures forall a :: a in catalog && Qualifies(s, a) ==> (uid, a.id) in After(uid, s, catalog, ledger)
    decreases |catalog|
  {
    if catalog != [] {
      var a := catalog[0];
      var rest := catalog[1..];
      AfterStep(uid, s, catalog, ledger);
      if (uid, a.id) !in ledger && Qualifies(s, a) {
        var l' := ledger + [(uid, a.id)];
        AfterSaturates(uid, s, rest, l');
        AfterExtends(uid, s, rest, l');
        assert (uid, a.id) in l';
      } else {
        AfterSaturates(uid, s, rest, ledger);
      }
      forall b | b in catalog && Qualifies(s, b) ensures (uid, b.id) in After(uid, s, catalog, ledger) {
        if b != a {
          assert b in rest;
        }
      }
    }
  }

  /** When every qualifying entry is already held, nothing is granted. */
  lemma {:induction false} NothingLeftToGrant(uid: int, s: Stats, catalog: seq<Achievement>, ledger: seq<Grant>)
    requires forall a :: a in catalog && Qualifies(s, a) ==> (uid, a.id) in ledger
    ensures Granted(uid, s, catalog, ledger) == []
    decreases |catalog|
  {
    if catalog != [] {
      assert catalog[0] in catalog;
      NothingLeftToGrant(uid, s, catalog[1..], ledger);
    }
  }

  /** A second evaluation straight after the first, with the same statistics, grants nothing. */
  lemma SecondRunGrantsNothing(uid: int, s: Stats, catalog: seq<Achievement>, ledger: seq<Grant>)
    ensures Granted(uid, s, catalog, After(uid, s, catalog, ledger)) == []
  {
    AfterSaturates(uid, s, catalog, ledger);
    NothingLeftToGrant(uid, s, catalog, After(uid, s, catalog, ledger));
  }

  // ---------------------------------------------------------------------------
  // Completion over all participants
  // ---------------------------------------------------------------------------

  /** A participant's id with their statistics after being credited. */
  datatype Entry = Entry(uid: int, stats: Stats)

  /**
   * The ledger after the evaluator has run for each entry in turn, each run
   * seeing the rows added by the runs before it.
   */
  function LedgerAfter(entries: seq<Entry>, catalog: seq<Achievement>, ledger: seq<Grant>): seq<Grant>
    decreases |entries|
  {
    if entries == [] then ledger
    else
      var e := entries[|entries| - 1];
      After(e.uid, e.stats, catalog, LedgerAfter(entries[..|entries| - 1], catalog, ledger))
  }

  /** The achievements granted to the `j`-th entry during the completion. */
  function GrantsAt(entries: seq<Entry>, catalog: seq<Achievement>, ledger: seq<Grant>, j: nat): seq<Achievement>
    requires j < |entries|
  {
    Granted(entries[j].uid, entries[j].stats, catalog, LedgerAfter(entries[..j], catalog, ledger))
  }

  /** Extending a completion by one more participant. */
  lemma LedgerAfterSnoc(entries: seq<Entry>, e: Entry, catalog: seq<Achievement>, ledger: seq<Grant>)
    ensures LedgerAfter(entries + [e], catalog, ledger) == After(e.uid, e.stats, catalog, LedgerAfter(entries, catalog, ledger))
    ensures forall j :: 0 <= j < |entries| ==> GrantsAt(entries + [e], catalog, ledger, j) == GrantsAt(entries, catalog, ledger, j)
    ensures GrantsAt(entries + [e], catalog, ledger, |entries|) == Granted(e.uid, e.stats, catalog, LedgerAfter(entries, catalog, ledger))
  {
    assert (entries + [e])[..|entries|] == entries;
    forall j | 0 <= j < |entries| ensures (entries + [e])[..j] == entries[..j] {
    }
  }

  /** No two entries belong to the same user. */
  predicate DistinctUsers(entries: seq<Entry>)
  {
    forall i, j :: 0 <= i < j < |entries| ==> entries[i].uid != entries[j].uid
  }

  /**
   * A completion keeps the ledger duplicate-free, never drops a row, and adds
   * rows only for the participants.
   */
  lemma {:induction false} LedgerAfterSound(entries: seq<Entry>, catalog: seq<Achievement>, ledger: seq<Grant>)
    requires NoDup(ledger)
    ensures NoDup(LedgerAfter(entries, catalog, ledger))
    ensures ledger <= LedgerAfter(entries, catalog, ledger)
    ensures forall g :: g in LedgerAfter(entries, catalog, ledger) && g !in ledger ==>
      exists e :: e in entries && e.uid == g.0
    decreases |entries|
  {
    if entries != [] {
      var init := entries[..|entries| - 1];
      var e := entries[|entries| - 1];
      var prev := LedgerAfter(init, catalog, ledger);
      LedgerAfterSound(init, catalog, ledger);
      AfterKeepsNoDup(e.uid, e.stats, catalog, prev);
      AfterExtends(e.uid, e.stats, catalog, prev);
      forall g | g in LedgerAfter(entries, catalog, ledger) && g !in ledger
        ensures exists e' :: e' in entries && e'.uid == g.0
      {
        if g in prev {
          var e' :| e' in init && e'.uid == g.0;
          assert e' in entries;
        } else {
          assert e in entries;
        }
      }
    }
  }

  /** Rows for users outside the completion are untouched by it. */
  lemma {:induction false} LedgerAfterOthers(entries: seq<Entry>, catalog: seq<Achievement>, ledger: seq<Grant>, g: Grant)
    requires forall e :: e in entries ==> e.uid != g.0
    ensures g in LedgerAfter(entries, catalog, ledger) <==> g in ledger
    decreases |entries|
  {
    if entries != [] {
      var init := entries[..|entries| - 1];
      var e := entries[|entries| - 1];
      assert e in entries;
      assert forall e' :: e' in init ==> e' in entries;
      LedgerAfterOthers(init, catalog, ledger, g);
      AfterExtends(e.uid, e.stats, catalog, LedgerAfter(init, catalog, ledger));
    }
  }

  /**
   * With distinct participants and distinct catalog ids, what each participant
   * is granted depends only on their own statistics and the grants they held
   * before the completion: the entries eligible against the original ledger.
   */
  lemma CompletionGrantsEligible(entries: seq<Entry>, catalog: seq<Achievement>, ledger: seq<Grant>, j: nat)
    requires DistinctUsers(entries) && DistinctIds(catalog) && j < |entries|
    ensures GrantsAt(entries, catalog, ledger, j) == Eligible(entries[j].uid, entries[j].stats, catalog, ledger)
  {
    var e := entries[j];
    var before := entries[..j];
    forall a | a in catalog
      ensures (e.uid, a.id) in LedgerAfter(before, catalog, ledger) <==> (e.uid, a.id) in ledger
    {
      forall e' | e' in before ensures e'.uid != e.uid {
        var k :| 0 <= k < j && before[k] == e';
        assert entries[k] == e';
      }
      LedgerAfterOthers(before, catalog, ledger, (e.uid, a.id));
    }
    GrantedMatchesEligible(e.uid, e.stats, catalog, LedgerAfter(before, catalog, ledger), ledger);
  }

  /**
   * After a completion every participant holds every achievement whose
   * condition their credited statistics meet.
   */
  lemma {:induction false} CompletionSaturates(entries: seq<Entry>, catalog: seq<Achievement>, ledger: seq<Grant>, j: nat, a: Achievement)
    requires j < |entries| && a in catalog && Qualifies(entries[j].stats, a)
    ensures (entries[j].uid, a.id) in LedgerAfter(entries, catalog, ledger)
    decreases |entries|
  {
    var init := entries[..|entries| - 1];
    var e := entries[|entries| - 1];
    var prev := LedgerAfter(init, catalog, ledger);
    AfterExtends(e.uid, e.stats, catalog, prev);
    if j == |entries| - 1 {
      AfterSaturates(e.uid, e.stats, catalog, prev);
    } else {
      assert init[j] == entries[j];
      CompletionSaturates(init, catalog, ledger, j, a);
    }
  }
}
