/** The backend's CallService: `createCall` upserts the sector by name, inserts a call already in
    `calling` and enqueues one `pending` audio entry for it, all in one transaction; `listCalls` joins
    every call with its sector's name, newest first. */
module CallService {
  import opened Common
  import opened Schema
  import AudioService

  /** Lookup of a sector row by its unique name. */
  function SectorNamed(sectors: seq<Sector>, name: string): (r: Option<nat>)
    ensures r.Some? ==> r.value < |sectors| && sectors[r.value].name == name
    ensures r.None? <==> name !in SectorNames(sectors)
  {
    IndexOf(SectorNames(sectors), name)
  }

  /** `INSERT INTO sector (name) VALUES ($1) ON CONFLICT (name) DO UPDATE SET name = EXCLUDED.name
      RETURNING id`: the database after the statement and the returned id. */
  function UpsertSector(d: Db, name: string): (r: (Db, nat))
    ensures r.0.calls == d.calls && r.0.queue == d.queue && r.0.now == d.now
    ensures r.0.nextCallId == d.nextCallId && r.0.nextAudioId == d.nextAudioId
    ensures name in SectorNames(d.sectors) ==>
              r.0 == d && exists k :: 0 <= k < |d.sectors| && d.sectors[k] == Sector(r.1, name)
    ensures name !in SectorNames(d.sectors) ==>
              r.0.sectors == d.sectors + [Sector(r.1, name)] && r.0.nextSectorId > r.1
    ensures |r.0.sectors| <= |d.sectors| + 1
  {
    match SectorNamed(d.sectors, name)
    case Some(k) => (d, d.sectors[k].id)
    case None =>
      (d.(sectors := d.sectors + [Sector(d.nextSectorId, name)], nextSectorId := d.nextSectorId + 1),
       d.nextSectorId)
  }

  /** One committed createCall transaction: the new database and the `RETURNING *` row of the call.
      NOW() and the `created_at` defaults all read the transaction's clock value. */
  function Create(d: Db, patientName: string, doctorName: string, sectorName: string): (Db, Call)
  {
    var u := UpsertSector(d, sectorName);
    var d1 := u.0;
    var call := Call(d1.nextCallId, patientName, doctorName, u.1, Calling, d.now, Some(d.now));
    var entry := AudioEntry(d1.nextAudioId, call.id, Pending, d.now);
    (d1.(calls := d1.calls + [call], queue := d1.queue + [entry],
         nextCallId := d1.nextCallId + 1, nextAudioId := d1.nextAudioId + 1),
     call)
  }

  // ---------------------------------------------------------------------------------------------
  // createCall

  /** An existing sector name reuses that sector's id and leaves the table alone; a new name adds
      exactly one sector with a fresh id. Either way the table grows by at most one row. */
  lemma CreateUpsertsSector(d: Db, patientName: string, doctorName: string, sectorName: string)
    requires WellFormed(d)
    ensures var (d', c) := Create(d, patientName, doctorName, sectorName);
      && (sectorName in SectorNames(d.sectors) ==>
            d'.sectors == d.sectors &&
            exists k :: 0 <= k < |d.sectors| && d.sectors[k] == Sector(c.sectorId, sectorName))
      && (sectorName !in SectorNames(d.sectors) ==>
            d'.sectors == d.sectors + [Sector(c.sectorId, sectorName)] && c.sectorId !in SectorIds(d.sectors))
      && |d'.sectors| <= |d.sectors| + 1
  {
    if sectorName !in SectorNames(d.sectors) {
      var c := Create(d, patientName, doctorName, sectorName).1;
      assert c.sectorId == d.nextSectorId;
    }
  }

  /** The new call is `calling`, carries the given names and the id of the sector with the given
      name, has `started_at` and `created_at` set to the transaction's NOW(), a fresh id, and is
      appended to the call table, whose existing rows stay as they were. */
  lemma CreateInsertsCall(d: Db, patientName: string, doctorName: string, sectorName: string)
    requires WellFormed(d)
    ensures var (d', c) := Create(d, patientName, doctorName, sectorName);
      && c.status == Calling && c.patientName == patientName && c.doctorName == doctorName
      && c.startedAt == Some(d.now) && c.createdAt == d.now
      && c.id !in CallIds(d.calls)
      && d'.calls == d.calls + [c]
      && exists k :: 0 <= k < |d'.sectors| && d'.sectors[k] == Sector(c.sectorId, sectorName)
  {
    var (d', c) := Create(d, patientName, doctorName, sectorName);
    assert c.id == d.nextCallId;
    if sectorName !in SectorNames(d.sectors) {
      assert d'.sectors[|d.sectors|] == Sector(c.sectorId, sectorName);
    }
  }

  /** createCall adds exactly one queue entry: `pending`, for the new call, with a fresh id, after
      the existing entries, which stay as they were. */
  lemma CreateEnqueuesOne(d: Db, patientName: string, doctorName: string, sectorName: string)
    requires WellFormed(d)
    ensures var (d', c) := Create(d, patientName, doctorName, sectorName);
      && |d'.queue| == |d.queue| + 1 && d'.queue[..|d.queue|] == d.queue
      && d'.queue[|d.queue|].callId == c.id && d'.queue[|d.queue|].status == Pending
      && d'.queue[|d.queue|].createdAt == d.now && d'.queue[|d.queue|].id !in AudioIds(d.queue)
  {
    var (d', c) := Create(d, patientName, doctorName, sectorName);
    assert d'.queue[|d.queue|].id == d.nextAudioId;
  }

  /** createCall keeps the schema's constraints. */
  lemma CreateKeepsWellFormed(d: Db, patientName: string, doctorName: string, sectorName: string)
    requires WellFormed(d)
    ensures WellFormed(Create(d, patientName, doctorName, sectorName).0)
  {
    var (d', c) := Create(d, patientName, doctorName, sectorName);
    assert Distinct(SectorIds(d'.sectors)) && Distinct(SectorNames(d'.sectors)) by {
      if sectorName !in SectorNames(d.sectors) {
        assert SectorIds(d'.sectors) == SectorIds(d.sectors) + [d.nextSectorId];
        assert SectorNames(d'.sectors) == SectorNames(d.sectors) + [sectorName];
        DistinctAppend(SectorIds(d.sectors), d.nextSectorId);
        DistinctAppend(SectorNames(d.sectors), sectorName);
      }
    }
    assert Distinct(CallIds(d'.calls)) by {
      assert CallIds(d'.calls) == CallIds(d.calls) + [d.nextCallId];
      DistinctAppend(CallIds(d.calls), d.nextCallId);
    }
    assert Distinct(AudioIds(d'.queue)) by {
      assert AudioIds(d'.queue) == AudioIds(d.queue) + [d.nextAudioId];
      DistinctAppend(AudioIds(d.queue), d.nextAudioId);
    }
    assert forall k :: 0 <= k < |d'.calls| ==> d'.calls[k].sectorId in SectorIds(d'.sectors) by {
      assert c.sectorId in SectorIds(d'.sectors) by {
        CreateInsertsCall(d, patientName, doctorName, sectorName);
        var k :| 0 <= k < |d'.sectors| && d'.sectors[k] == Sector(c.sectorId, sectorName);
        assert SectorIds(d'.sectors)[k] == c.sectorId;
      }
      forall k | 0 <= k < |d.calls| ensures d.calls[k].sectorId in SectorIds(d'.sectors) {
        var j :| 0 <= j < |d.sectors| && SectorIds(d.sectors)[j] == d.calls[k].sectorId;
        assert SectorIds(d'.sectors)[j] == d.calls[k].sectorId;
      }
      assert forall k :: 0 <= k < |d.calls| ==> d'.calls[k] == d.calls[k];
    }
    assert forall k :: 0 <= k < |d'.queue| ==> d'.queue[k].callId in CallIds(d'.calls) by {
      forall k | 0 <= k < |d'.queue| ensures d'.queue[k].callId in CallIds(d'.calls) {
        if k < |d.queue| {
          var j :| 0 <= j < |d.calls| && CallIds(d.calls)[j] == d.queue[k].callId;
          assert CallIds(d'.calls)[j] == d.queue[k].callId;
        } else {
          assert CallIds(d'.calls)[|d.calls|] == c.id;
        }
      }
    }
  }

  /** createCall enqueues its entry as `pending`, so "at most one entry is playing" survives it. */
  lemma CreateKeepsAtMostOnePlaying(d: Db, patientName: string, doctorName: string, sectorName: string)
    requires AtMostOnePlaying(d.queue)
    ensures AtMostOnePlaying(Create(d, patientName, doctorName, sectorName).0.queue)
  {
    var q' := Create(d, patientName, doctorName, sectorName).0.queue;
    assert q'[|d.queue|].status == Pending;
    forall i, j | 0 <= i < |q'| && 0 <= j < |q'| && q'[i].status == Playing && q'[j].status == Playing
      ensures i == j
    {
      assert i < |d.queue| && j < |d.queue|;
      assert q'[i] == d.queue[i] && q'[j] == d.queue[j];
    }
  }

  /** Two createCalls with the same sector name give their calls the same `sector_id`. */
  lemma SameSectorNameSameId(d: Db, p1: string, doc1: string, p2: string, doc2: string, sectorName: string)
    requires WellFormed(d)
    ensures var (d1, c1) := Create(d, p1, doc1, sectorName);
            Create(d1, p2, doc2, sectorName).1.sectorId == c1.sectorId
  {
    var (d1, c1) := Create(d, p1, doc1, sectorName);
    CreateKeepsWellFormed(d, p1, doc1, sectorName);
    CreateInsertsCall(d, p1, doc1, sectorName);
    var k :| 0 <= k < |d1.sectors| && d1.sectors[k] == Sector(c1.sectorId, sectorName);
    assert SectorNames(d1.sectors)[k] == sectorName;
    IndexOfDistinct(SectorNames(d1.sectors), k);
  }

  /** The entry createCall enqueues joins with the new call and with the sector named
      `sectorName`. */
  lemma CreateJoinsNewEntry(d: Db, patientName: string, doctorName: string, sectorName: string)
    requires WellFormed(d)
    ensures var (d', c) := Create(d, patientName, doctorName, sectorName);
      AudioService.JoinEntry(d', d'.queue[|d.queue|]) ==
        Some(AudioService.NextAudioRow(d'.queue[|d.queue|].id, patientName, doctorName, sectorName))
  {
    var (d', c) := Create(d, patientName, doctorName, sectorName);
    CreateKeepsWellFormed(d, patientName, doctorName, sectorName);
    CreateInsertsCall(d, patientName, doctorName, sectorName);
    assert d'.queue[|d.queue|].callId == c.id;
    assert CallIds(d'.calls)[|d.calls|] == c.id;
    IndexOfDistinct(CallIds(d'.calls), |d.calls|);
    assert CallIndex(d'.calls, c.id) == Some(|d.calls|);
    var k :| 0 <= k < |d'.sectors| && d'.sectors[k] == Sector(c.sectorId, sectorName);
    assert SectorIds(d'.sectors)[k] == c.sectorId;
    IndexOfDistinct(SectorIds(d'.sectors), k);
    assert SectorIndex(d'.sectors, c.sectorId) == Some(k);
  }

  /** On an idle queue (nothing playing, nothing pending), the call createCall enqueues is the one
      the next getNextAudio plays, with the given names and sector name. */
  lemma CreateThenNextPlaysIt(d: Db, patientName: string, doctorName: string, sectorName: string)
    requires WellFormed(d)
    requires forall k :: 0 <= k < |d.queue| ==> d.queue[k].status == Done
    ensures var (d', c) := Create(d, patientName, doctorName, sectorName);
      AudioService.Next(d').1 == Some(AudioService.NextAudioRow(d'.queue[|d.queue|].id, patientName, doctorName, sectorName))
  {
    var (d', c) := Create(d, patientName, doctorName, sectorName);
    var n := |d.queue|;
    CreateKeepsWellFormed(d, patientName, doctorName, sectorName);
    CreateJoinsNewEntry(d, patientName, doctorName, sectorName);
    assert |d'.queue| == n + 1 && d'.queue[n].status == Pending;
    assert forall i :: 0 <= i < n ==> d'.queue[i] == d.queue[i];
    assert !AudioService.SomePlaying(d'.queue);
    assert AudioService.IsOldestPending(d', n) by {
      forall j | 0 <= j < |d'.queue| && AudioService.Eligible(d', j)
        ensures AudioService.ServedBefore(d'.queue, n, j)
      {
        assert j == n;
      }
    }
    AudioService.NextPromotesOldest(d', n);
  }

  /** The statement of createCall that throws, if one does. */
  datatype Step = UpsertSectorStep | InsertCallStep | EnqueueAudioStep

  /** createCall. A throwing statement (`failAt`) sends the transaction to ROLLBACK, which takes
      every table back to its state at BEGIN, and the error is passed on. */
  method CreateCall(db: Database, patientName: string, doctorName: string, sectorName: string,
                    failAt: Option<Step>)
    returns (r: Result<Call>)
    requires db.Valid()
    modifies db
    ensures db.Valid()
    ensures failAt.Some? ==> r == Failed && db.Snapshot() == old(db.Snapshot())
    ensures failAt.None? ==>
              var (d', c) := Create(old(db.Snapshot()), patientName, doctorName, sectorName);
              r == Ok(c) && db.Snapshot() == d'
  {
    var begin := db.Snapshot();
    if failAt == Some(UpsertSectorStep) {
      db.Restore(begin);
      return Failed;
    }
    var found := SectorNamed(db.sectors, sectorName);
    var sectorId: nat;
    if found.Some? {
      sectorId := db.sectors[found.value].id;
    } else {
      sectorId := db.nextSectorId;
      db.sectors := db.sectors + [Sector(sectorId, sectorName)];
      db.nextSectorId := db.nextSectorId + 1;
    }
    assert (db.Snapshot(), sectorId) == UpsertSector(begin, sectorName);
    if failAt == Some(InsertCallStep) {
      db.Restore(begin);
      return Failed;
    }
    var call := Call(db.nextCallId, patientName, doctorName, sectorId, Calling, db.now, Some(db.now));
    db.calls := db.calls + [call];
    db.nextCallId := db.nextCallId + 1;
    assert call == Create(begin, patientName, doctorName, sectorName).1;
    if failAt.Some? {
      // the one step left: failAt == Some(EnqueueAudioStep)
      db.Restore(begin);
      return Failed;
    }
    db.queue := db.queue + [AudioEntry(db.nextAudioId, call.id, Pending, db.now)];
    db.nextAudioId := db.nextAudioId + 1;
    assert db.Snapshot() == Create(begin, patientName, doctorName, sectorName).0;
    CreateKeepsWellFormed(begin, patientName, doctorName, sectorName);
    r := Ok(call);
  }

  // ---------------------------------------------------------------------------------------------
  // listCalls

  /** A row of listCalls: `c.id, c.patient_name, c.doctor_name, s.name AS sector, c.status, c.created_at`. */
  datatype CallRow = CallRow(id: nat, patientName: string, doctorName: string, sector: string,
                             status: string, createdAt: nat)

  function CallRowOf(c: Call, s: Sector): CallRow {
    CallRow(c.id, c.patientName, c.doctorName, s.name, c.status, c.createdAt)
  }

  /** `FROM call c JOIN sector s ON s.id = c.sector_id`, in call-table order. */
  function JoinCalls(calls: seq<Call>, sectors: seq<Sector>): seq<CallRow>
    decreases |calls|
  {
    if calls == [] then []
    else
      (match SectorIndex(sectors, calls[0].sectorId)
       case None => []
       case Some(s) => [CallRowOf(calls[0], sectors[s])])
      + JoinCalls(calls[1..], sectors)
  }

  predicate NewestFirst(rows: seq<CallRow>) {
    forall i, j :: 0 <= i < j < |rows| ==> rows[i].createdAt >= rows[j].createdAt
  }

  /** A row at least as new as the head of a newest-first list can go in front of it. */
  lemma ConsNewestFirst(a: CallRow, rows: seq<CallRow>)
    requires NewestFirst(rows) && (rows != [] ==> a.createdAt >= rows[0].createdAt)
    ensures NewestFirst([a] + rows)
  {
    var r := [a] + rows;
    forall i, j | 0 <= i < j < |r| ensures r[i].createdAt >= r[j].createdAt {
      if i == 0 {
        assert r[j] == rows[j - 1];
        if j > 1 {
          assert rows[0].createdAt >= rows[j - 1].createdAt;
        }
      } else {
        assert r[i] == rows[i - 1] && r[j] == rows[j - 1];
      }
    }
  }

  /** Places `x` after every row at least as new, so among equal `created_at` the later call comes first. */
  function InsertNewestFirst(x: CallRow, rows: seq<CallRow>): (r: seq<CallRow>)
    requires NewestFirst(rows)
    ensures NewestFirst(r)
    ensures multiset(r) == multiset(rows) + multiset{x}
    ensures r != [] && (r[0] == x || (rows != [] && r[0] == rows[0]))
    decreases |rows|
  {
    if rows == [] || rows[0].createdAt < x.createdAt then
      ConsNewestFirst(x, rows);
      [x] + rows
    else
      assert NewestFirst(rows[1..]) by {
        forall i, j | 0 <= i < j < |rows[1..]| ensures rows[1..][i].createdAt >= rows[1..][j].createdAt {
          assert rows[1..][i] == rows[i + 1] && rows[1..][j] == rows[j + 1];
        }
      }
      var rest := InsertNewestFirst(x, rows[1..]);
      assert |rows| > 1 ==> rows[0].createdAt >= rows[1].createdAt;
      ConsNewestFirst(rows[0], rest);
      assert rows == [rows[0]] + rows[1..];
      [rows[0]] + rest
  }

  /** `ORDER BY c.created_at DESC`; SQL leaves ties open and the model fixes one order for them. */
  function SortNewestFirst(rows: seq<CallRow>): (r: seq<CallRow>)
    ensures NewestFirst(r)
    ensures multiset(r) == multiset(rows)
    decreases |rows|
  {
    if rows == [] then []
    else
      assert rows == [rows[0]] + rows[1..];
      InsertNewestFirst(rows[0], SortNewestFirst(rows[1..]))
  }

  /** listCalls: every call with its sector's name, newest first. */
  function ListCalls(d: Db): (r: seq<CallRow>)
    ensures NewestFirst(r)
    ensures multiset(r) == multiset(JoinCalls(d.calls, d.sectors))
  {
    SortNewestFirst(JoinCalls(d.calls, d.sectors))
  }

  /** When every call's sector exists, the join has one row per call, in call order. */
  lemma {:induction false} JoinCallsComplete(calls: seq<Call>, sectors: seq<Sector>)
    requires forall k :: 0 <= k < |calls| ==> calls[k].sectorId in SectorIds(sectors)
    ensures |JoinCalls(calls, sectors)| == |calls|
    ensures forall k :: 0 <= k < |calls| ==>
              JoinCalls(calls, sectors)[k] ==
              CallRowOf(calls[k], sectors[SectorIndex(sectors, calls[k].sectorId).value])
    decreases |calls|
  {
    if calls != [] {
      JoinCallsComplete(calls[1..], sectors);
      var j := JoinCalls(calls, sectors);
      forall k | 0 <= k < |calls|
        ensures j[k] == CallRowOf(calls[k], sectors[SectorIndex(sectors, calls[k].sectorId).value])
      {
        if k > 0 {
          assert calls[k] == calls[1..][k - 1];
        }
      }
    }
  }

  /** listCalls returns every call exactly once, joined with the name of its sector. */
  lemma ListCallsEveryCallOnce(d: Db)
    requires WellFormed(d)
    ensures |ListCalls(d)| == |d.calls|
    ensures forall k :: 0 <= k < |d.calls| ==>
              exists s :: 0 <= s < |d.sectors| && d.sectors[s].id == d.calls[k].sectorId &&
                multiset(ListCalls(d))[CallRowOf(d.calls[k], d.sectors[s])] == 1
  {
    var j := JoinCalls(d.calls, d.sectors);
    JoinCallsComplete(d.calls, d.sectors);
    assert |ListCalls(d)| == |multiset(ListCalls(d))| == |multiset(j)| == |j|;
    assert Distinct(j) by {
      forall a, b | 0 <= a < b < |j| ensures j[a] != j[b] {
        assert CallIds(d.calls)[a] != CallIds(d.calls)[b];
      }
    }
    forall k | 0 <= k < |d.calls|
      ensures exists s :: 0 <= s < |d.sectors| && d.sectors[s].id == d.calls[k].sectorId &&
                multiset(ListCalls(d))[CallRowOf(d.calls[k], d.sectors[s])] == 1
    {
      var s := SectorIndex(d.sectors, d.calls[k].sectorId).value;
      DistinctOccursOnce(j, k);
    }
  }
}
