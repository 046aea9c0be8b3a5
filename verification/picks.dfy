/**
 The pick service of the last-player-standing competition, over an abstract
 store. The store is a value holding the rows of the tables the service
 touches; each remote request is a parameter saying whether the store
 answers it or fails with an error. Calls are sequential state transitions.
 */
module Picks {
  import opened Common

  datatype MatchweekStatus = Upcoming | Open | Closed | Completed

  datatype Matchweek = Matchweek(
    id: string,
    competitionId: string,
    weekNumber: int,
    name: string,
    startDate: string,
    endDate: string,
    deadline: string,
    status: MatchweekStatus)

  /** A row of `picks`; `isWinningPick` is `null` until the result is known. */
  datatype Pick = Pick(
    id: string,
    entryId: string,
    matchweekId: string,
    fixtureId: string,
    selectedTeam: string,
    isWinningPick: Option<bool>)

  /** A row of `team_usage`. */
  datatype TeamUsage = TeamUsage(entryId: string, teamName: string, timesUsed: int)

  /** The rows of the tables the service reads and writes. */
  datatype Db = Db(matchweeks: seq<Matchweek>, picks: seq<Pick>, teamUsage: seq<TeamUsage>)

  /** An error object returned by the store. */
  datatype StoreError = StoreError(code: string, message: string)

  /** How the store answers one request: it carries it out, or it fails with an error. */
  datatype Reply = Done | Fails(error: StoreError)

  /** The store's code for "a single row was requested but not exactly one row matched". */
  const NoSingleRowCode: string := "PGRST116"

  /** Why submitPick threw. */
  datatype PickError = TeamAlreadySelected | Store(error: StoreError)

  /** The result of a submitPick call and the store afterwards. */
  datatype Submission = Submission(outcome: Result<Pick, PickError>, db: Db)

  // ---------------------------------------------------------------------------
  // The no-repeat rule
  // ---------------------------------------------------------------------------

  /** Entry `entryId` already has a pick of exactly `team` (case-sensitive, no normalisation). */
  ghost predicate TeamUsed(picks: seq<Pick>, entryId: string, team: string)
  {
    exists i :: 0 <= i < |picks| && picks[i].entryId == entryId && picks[i].selectedTeam == team
  }

  /** No entry holds two picks of the same team. */
  ghost predicate NoRepeats(picks: seq<Pick>)
  {
    forall i, j :: 0 <= i < j < |picks| && picks[i].entryId == picks[j].entryId ==>
      picks[i].selectedTeam != picks[j].selectedTeam
  }

  /** The rows `.eq('entry_id', entryId).eq('selected_team', team)` selects. */
  function PicksOfTeam(picks: seq<Pick>, entryId: string, team: string): (r: seq<Pick>)
    ensures |r| == 0 <==> !TeamUsed(picks, entryId, team)
  {
    var r := Filter(picks, (p: Pick) => p.entryId == entryId && p.selectedTeam == team);
    assert TeamUsed(picks, entryId, team) ==> |r| > 0 by {
      if TeamUsed(picks, entryId, team) {
        var i :| 0 <= i < |picks| && picks[i].entryId == entryId && picks[i].selectedTeam == team;
        assert picks[i] in r;
      }
    }
    assert |r| > 0 ==> TeamUsed(picks, entryId, team) by {
      if |r| > 0 {
        assert r[0] in picks;
      }
    }
    r
  }

  /** validateTeamNotUsed: `true` iff the entry has no pick of exactly this team. */
  function ValidateTeamNotUsed(db: Db, entryId: string, team: string, read: Reply): (r: Result<bool, StoreError>)
    ensures read.Fails? ==> r == Err(read.error)
    ensures read.Done? ==> r.Ok? && (r.value <==> !TeamUsed(db.picks, entryId, team))
  {
    if read.Fails? then Err(read.error)
    else Ok(|PicksOfTeam(db.picks, entryId, team)| == 0)
  }

  // ---------------------------------------------------------------------------
  // submitPick
  // ---------------------------------------------------------------------------

  /**
   submitPick: the reuse check, then the pick insert, then the usage insert.
   `newId` is the id the store gives the new pick. A failing usage insert is
   reported after the pick row was written, as the service does.
   */
  function SubmitPick(db: Db, entryId: string, matchweekId: string, fixtureId: string, team: string,
                      newId: string, read: Reply, insertPick: Reply, insertUsage: Reply): (s: Submission)
    // the reuse check: a team already picked by this entry is refused, and nothing is written
    ensures read.Done? && TeamUsed(db.picks, entryId, team) ==> s == Submission(Err(TeamAlreadySelected), db)
    // the check's own read failing writes nothing
    ensures read.Fails? ==> s == Submission(Err(Store(read.error)), db)
    // a refused insert writes nothing to either table
    ensures read.Done? && !TeamUsed(db.picks, entryId, team) && insertPick.Fails? ==>
              s == Submission(Err(Store(insertPick.error)), db)
    // success: exactly one pick row and then exactly one usage row are appended
    ensures s.outcome.Ok? <==> read.Done? && !TeamUsed(db.picks, entryId, team) && insertPick.Done? && insertUsage.Done?
    ensures s.outcome.Ok? ==>
              && s.outcome.value == Pick(newId, entryId, matchweekId, fixtureId, team, None)
              && s.db == db.(picks := db.picks + [s.outcome.value],
                             teamUsage := db.teamUsage + [TeamUsage(entryId, team, 1)])
    // a failing usage insert leaves the new pick in place and no usage row
    ensures read.Done? && !TeamUsed(db.picks, entryId, team) && insertPick.Done? && insertUsage.Fails? ==>
              && s.outcome == Err(Store(insertUsage.error))
              && s.db == db.(picks := db.picks + [Pick(newId, entryId, matchweekId, fixtureId, team, None)])
    ensures s.db.matchweeks == db.matchweeks
  {
    match ValidateTeamNotUsed(db, entryId, team, read)
    case Err(e) => Submission(Err(Store(e)), db)
    case Ok(isValid) =>
      if !isValid then Submission(Err(TeamAlreadySelected), db)
      else if insertPick.Fails? then Submission(Err(Store(insertPick.error)), db)
      else
        var pick := Pick(newId, entryId, matchweekId, fixtureId, team, None);
        var db1 := db.(picks := db.picks + [pick]);
        if insertUsage.Fails? then Submission(Err(Store(insertUsage.error)), db1)
        else Submission(Ok(pick), db1.(teamUsage := db.teamUsage + [TeamUsage(entryId, team, 1)]))
  }

  /** Every outcome of submitPick keeps the no-repeat rule. */
  lemma SubmitPickKeepsNoRepeats(db: Db, entryId: string, matchweekId: string, fixtureId: string, team: string,
                                 newId: string, read: Reply, insertPick: Reply, insertUsage: Reply)
    requires NoRepeats(db.picks)
    ensures NoRepeats(SubmitPick(db, entryId, matchweekId, fixtureId, team, newId, read, insertPick, insertUsage).db.picks)
  {
    var s := SubmitPick(db, entryId, matchweekId, fixtureId, team, newId, read, insertPick, insertUsage);
    if s.db.picks != db.picks {
      var ps := s.db.picks;
      forall i, j | 0 <= i < j < |ps| && ps[i].entryId == ps[j].entryId
        ensures ps[i].selectedTeam != ps[j].selectedTeam
      {
        if j == |ps| - 1 {
          assert ps[i] == db.picks[i];
        }
      }
    }
  }

  /** One submitPick request together with how the store answers its three requests. */
  datatype Call = Call(entryId: string, matchweekId: string, fixtureId: string, team: string,
                       newId: string, read: Reply, insertPick: Reply, insertUsage: Reply)

  /** The store after a sequence of submitPick calls, one after the other. */
  function Run(db: Db, calls: seq<Call>): Db
    decreases |calls|
  {
    if |calls| == 0 then db
    else
      var c := calls[0];
      Run(SubmitPick(db, c.entryId, c.matchweekId, c.fixtureId, c.team, c.newId, c.read, c.insertPick, c.insertUsage).db,
          calls[1..])
  }

  /**
   When `picks` changes only through sequential submitPick calls, no entry
   ever holds the same team twice.
   */
  lemma {:induction false} RunKeepsNoRepeats(db: Db, calls: seq<Call>)
    requires NoRepeats(db.picks)
    ensures NoRepeats(Run(db, calls).picks)
    decreases |calls|
  {
    if |calls| > 0 {
      var c := calls[0];
      SubmitPickKeepsNoRepeats(db, c.entryId, c.matchweekId, c.fixtureId, c.team, c.newId, c.read, c.insertPick, c.insertUsage);
      RunKeepsNoRepeats(
        SubmitPick(db, c.entryId, c.matchweekId, c.fixtureId, c.team, c.newId, c.read, c.insertPick, c.insertUsage).db,
        calls[1..]);
    }
  }

  // ---------------------------------------------------------------------------
  // getTeamUsage
  // ---------------------------------------------------------------------------

  /** `selected_team` of each pick of the entry, in row order. */
  function TeamsOf(picks: seq<Pick>, entryId: string): (teams: seq<string>)
    ensures |teams| <= |picks|
    ensures forall t :: t in teams <==> TeamUsed(picks, entryId, t)
  {
    if |picks| == 0 then []
    else
      var rest := TeamsOf(picks[1..], entryId);
      assert forall t :: TeamUsed(picks, entryId, t) <==>
        (picks[0].entryId == entryId && picks[0].selectedTeam == t) || TeamUsed(picks[1..], entryId, t) by {
        forall t | TeamUsed(picks, entryId, t) && !(picks[0].entryId == entryId && picks[0].selectedTeam == t)
          ensures TeamUsed(picks[1..], entryId, t)
        {
          var i :| 0 <= i < |picks| && picks[i].entryId == entryId && picks[i].selectedTeam == t;
          assert picks[1..][i - 1] == picks[i];
        }
        forall t | TeamUsed(picks[1..], entryId, t)
          ensures TeamUsed(picks, entryId, t)
        {
          var i :| 0 <= i < |picks[1..]| && picks[1..][i].entryId == entryId && picks[1..][i].selectedTeam == t;
          assert picks[i + 1] == picks[1..][i];
        }
      }
      (if picks[0].entryId == entryId then [picks[0].selectedTeam] else []) + rest
  }

  /** getTeamUsage: the teams of every pick of this entry and of no other entry. */
  function GetTeamUsage(db: Db, entryId: string, read: Reply): (r: Result<seq<string>, StoreError>)
    ensures read.Fails? ==> r == Err(read.error)
    ensures read.Done? ==> r.Ok? && forall t :: t in r.value <==> TeamUsed(db.picks, entryId, t)
  {
    if read.Fails? then Err(read.error) else Ok(TeamsOf(db.picks, entryId))
  }

  /** The reuse check and the usage list agree: a team passes exactly when it is not listed. */
  lemma ValidateAgreesWithUsage(db: Db, entryId: string, team: string)
    ensures ValidateTeamNotUsed(db, entryId, team, Done).value <==> team !in GetTeamUsage(db, entryId, Done).value
  {
  }

  /** After a successful submission the team is listed in the entry's usage. */
  lemma SubmittedTeamIsUsed(db: Db, entryId: string, matchweekId: string, fixtureId: string, team: string,
                            newId: string, read: Reply, insertPick: Reply, insertUsage: Reply)
    requires SubmitPick(db, entryId, matchweekId, fixtureId, team, newId, read, insertPick, insertUsage).outcome.Ok?
    ensures team in GetTeamUsage(SubmitPick(db, entryId, matchweekId, fixtureId, team, newId, read, insertPick, insertUsage).db,
                                 entryId, Done).value
  {
    var ps := SubmitPick(db, entryId, matchweekId, fixtureId, team, newId, read, insertPick, insertUsage).db.picks;
    assert ps[|ps| - 1].entryId == entryId && ps[|ps| - 1].selectedTeam == team;
  }

  // ---------------------------------------------------------------------------
  // getUserPicksForMatchweek
  // ---------------------------------------------------------------------------

  /** The rows of `picks` for this entry and matchweek. */
  function PicksFor(picks: seq<Pick>, entryId: string, matchweekId: string): seq<Pick>
  {
    Filter(picks, (p: Pick) => p.entryId == entryId && p.matchweekId == matchweekId)
  }

  /**
   getUserPicksForMatchweek with `.single()`: the one matching row, or `null`
   when the store answers "not exactly one row" (no match, or several).
   Any other store error is thrown.
   */
  function GetUserPicksForMatchweek(db: Db, entryId: string, matchweekId: string, read: Reply): (r: Result<Option<Pick>, StoreError>)
    ensures read.Fails? && read.error.code != NoSingleRowCode ==> r == Err(read.error)
    ensures read.Fails? && read.error.code == NoSingleRowCode ==> r == Ok(None)
    ensures read.Done? ==> r.Ok?
    ensures read.Done? && r.value.Some? ==>
              var p := r.value.value;
              p in db.picks && p.entryId == entryId && p.matchweekId == matchweekId
    ensures read.Done? ==> (r.value.Some? <==> |PicksFor(db.picks, entryId, matchweekId)| == 1)
    ensures (read.Done? && forall i :: 0 <= i < |db.picks| ==>
               !(db.picks[i].entryId == entryId && db.picks[i].matchweekId == matchweekId)) ==> r == Ok(None)
  {
    if read.Fails? then
      if read.error.code == NoSingleRowCode then Ok(None) else Err(read.error)
    else
      var rows := PicksFor(db.picks, entryId, matchweekId);
      if |rows| == 1 then Ok(Some(rows[0])) else Ok(None)
  }

  /** The pick submitPick just stored is the one found for that entry and matchweek, when it is the only one. */
  lemma SubmittedPickIsFound(db: Db, entryId: string, matchweekId: string, fixtureId: string, team: string,
                             newId: string, read: Reply, insertPick: Reply, insertUsage: Reply)
    requires |PicksFor(db.picks, entryId, matchweekId)| == 0
    requires SubmitPick(db, entryId, matchweekId, fixtureId, team, newId, read, insertPick, insertUsage).outcome.Ok?
    ensures var s := SubmitPick(db, entryId, matchweekId, fixtureId, team, newId, read, insertPick, insertUsage);
      GetUserPicksForMatchweek(s.db, entryId, matchweekId, Done) == Ok(Some(s.outcome.value))
  {
    var s := SubmitPick(db, entryId, matchweekId, fixtureId, team, newId, read, insertPick, insertUsage);
    FilterAppend(db.picks, [s.outcome.value], (p: Pick) => p.entryId == entryId && p.matchweekId == matchweekId);
  }

  // ---------------------------------------------------------------------------
  // getAvailableMatchweeks
  // ---------------------------------------------------------------------------

  ghost predicate SortedByWeek(ms: seq<Matchweek>)
  {
    forall i, j :: 0 <= i < j < |ms| ==> ms[i].weekNumber <= ms[j].weekNumber
  }

  /** Places `m` before the first matchweek with a larger week number. */
  function InsertByWeek(m: Matchweek, ms: seq<Matchweek>): (r: seq<Matchweek>)
    requires SortedByWeek(ms)
    ensures SortedByWeek(r)
    ensures multiset(r) == multiset(ms) + multiset{m}
    ensures r[0] == m || (|ms| > 0 && r[0] == ms[0])
  {
    if |ms| == 0 then [m]
    else if m.weekNumber <= ms[0].weekNumber then [m] + ms
    else
      assert SortedByWeek(ms[1..]);
      var rest := InsertByWeek(m, ms[1..]);
      PrependSorted(ms[0], rest);
      assert ms == [ms[0]] + ms[1..];
      [ms[0]] + rest
  }

  /** A matchweek no later than the head of a sorted list can go in front of it. */
  lemma PrependSorted(m: Matchweek, ms: seq<Matchweek>)
    requires SortedByWeek(ms)
    requires |ms| > 0 ==> m.weekNumber <= ms[0].weekNumber
    ensures SortedByWeek([m] + ms)
  {
    var r := [m] + ms;
    forall i, j | 0 <= i < j < |r|
      ensures r[i].weekNumber <= r[j].weekNumber
    {
      assert r[j] == ms[j - 1];
      if i > 0 {
        assert r[i] == ms[i - 1];
      }
    }
  }

  /** `.order('week_number', { ascending: true })` */
  function SortByWeek(ms: seq<Matchweek>): (r: seq<Matchweek>)
    ensures SortedByWeek(r)
    ensures multiset(r) == multiset(ms)
  {
    if |ms| == 0 then []
    else
      assert ms == [ms[0]] + ms[1..];
      InsertByWeek(ms[0], SortByWeek(ms[1..]))
  }

  predicate Selectable(m: Matchweek, competitionId: string)
  {
    m.competitionId == competitionId && (m.status == Open || m.status == Upcoming)
  }

  /**
   getAvailableMatchweeks: exactly this competition's open or upcoming
   matchweeks, each as often as stored, in ascending week number.
   */
  function GetAvailableMatchweeks(db: Db, competitionId: string, read: Reply): (r: Result<seq<Matchweek>, StoreError>)
    ensures read.Fails? ==> r == Err(read.error)
    ensures read.Done? ==> r.Ok?
    ensures read.Done? ==> SortedByWeek(r.value)
    ensures read.Done? ==> forall m :: m in r.value <==> m in db.matchweeks && Selectable(m, competitionId)
    ensures read.Done? ==> multiset(r.value) == multiset(Filter(db.matchweeks, (m: Matchweek) => Selectable(m, competitionId)))
  {
    if read.Fails? then Err(read.error)
    else
      var chosen := Filter(db.matchweeks, (m: Matchweek) => Selectable(m, competitionId));
      var sorted := SortByWeek(chosen);
      assert forall m :: m in sorted <==> m in chosen by {
        forall m
          ensures m in sorted <==> m in chosen
        {
          assert m in sorted <==> m in multiset(sorted);
          assert m in chosen <==> m in multiset(chosen);
        }
      }
      assert forall m :: m in chosen <==> m in db.matchweeks && Selectable(m, competitionId) by {
        forall m | m in db.matchweeks && Selectable(m, competitionId)
          ensures m in chosen
        {
          var i :| 0 <= i < |db.matchweeks| && db.matchweeks[i] == m;
        }
      }
      Ok(sorted)
  }
}
