/** The audio queue state machine of the backend's AudioService: `getNextAudio` promotes the oldest
    `pending` entry to `playing` unless some entry is already `playing`, and `finishAudio` marks an
    entry `done`. Exclusion is global: the `playing` check does not look at sectors. */
module AudioService {
  import opened Common
  import opened Schema

  /** The row getNextAudio returns: the queue entry's id with its call's names and its sector's name. */
  datatype NextAudioRow = NextAudioRow(id: nat, patientName: string, doctorName: string, sector: string)

  /** `SELECT id FROM audio_queue WHERE status = 'playing' LIMIT 1` found a row. */
  predicate SomePlaying(queue: seq<AudioEntry>) {
    exists i :: 0 <= i < |queue| && queue[i].status == Playing
  }

  /** `audio_queue aq JOIN call c ON c.id = aq.call_id JOIN sector s ON s.id = c.sector_id`,
      projected onto the columns getNextAudio selects; None when the entry has no partner rows. */
  function JoinEntry(d: Db, e: AudioEntry): Option<NextAudioRow> {
    match CallIndex(d.calls, e.callId)
    case None => None
    case Some(c) =>
      match SectorIndex(d.sectors, d.calls[c].sectorId)
      case None => None
      case Some(s) => Some(NextAudioRow(e.id, d.calls[c].patientName, d.calls[c].doctorName, d.sectors[s].name))
  }

  /** The joined row is built from a call with the entry's `call_id` and a sector with that call's
      `sector_id`; the join is empty only when one of the two is missing. */
  lemma JoinEntryMatches(d: Db, e: AudioEntry)
    ensures JoinEntry(d, e).Some? ==>
              exists c, s :: 0 <= c < |d.calls| && 0 <= s < |d.sectors| &&
                d.calls[c].id == e.callId && d.sectors[s].id == d.calls[c].sectorId &&
                JoinEntry(d, e).value ==
                  NextAudioRow(e.id, d.calls[c].patientName, d.calls[c].doctorName, d.sectors[s].name)
    ensures JoinEntry(d, e).None? ==>
              || e.callId !in CallIds(d.calls)
              || exists c :: 0 <= c < |d.calls| && d.calls[c].id == e.callId &&
                   d.calls[c].sectorId !in SectorIds(d.sectors)
  {
    var ci := CallIndex(d.calls, e.callId);
    if ci.Some? {
      var c := ci.value;
      if JoinEntry(d, e).Some? {
        var s := SectorIndex(d.sectors, d.calls[c].sectorId).value;
        assert d.calls[c].id == e.callId && d.sectors[s].id == d.calls[c].sectorId;
      }
    }
  }

  /** Under the schema's foreign keys every queue entry joins with its call and sector. */
  lemma WellFormedEntryJoins(d: Db, k: nat)
    requires WellFormed(d) && k < |d.queue|
    ensures JoinEntry(d, d.queue[k]).Some?
  {
    var c := CallIndex(d.calls, d.queue[k].callId);
    assert d.calls[c.value].sectorId in SectorIds(d.sectors);
  }

  /** Entry `i` passes `WHERE aq.status = 'pending'` after the joins. */
  predicate Eligible(d: Db, i: nat) {
    i < |d.queue| && d.queue[i].status == Pending && JoinEntry(d, d.queue[i]).Some?
  }

  /** Entry `i` precedes entry `j` under `ORDER BY aq.created_at`; SQL leaves ties open, and the
      model breaks them by position in the table, that is by insertion order. */
  predicate ServedBefore(queue: seq<AudioEntry>, i: nat, j: nat)
    requires i < |queue| && j < |queue|
  {
    queue[i].createdAt < queue[j].createdAt || (queue[i].createdAt == queue[j].createdAt && i <= j)
  }

  /** Entry `i` is the first row of `ORDER BY aq.created_at LIMIT 1` over the eligible entries. */
  ghost predicate IsOldestPending(d: Db, i: nat) {
    Eligible(d, i) && forall j :: 0 <= j < |d.queue| && Eligible(d, j) ==> ServedBefore(d.queue, i, j)
  }

  /** The oldest eligible entry among the first `n` queue rows. */
  function OldestAmong(d: Db, n: nat): (r: Option<nat>)
    requires n <= |d.queue|
    ensures r.Some? ==> r.value < n && Eligible(d, r.value)
    ensures r.Some? ==> forall j :: 0 <= j < n && Eligible(d, j) ==> ServedBefore(d.queue, r.value, j)
    ensures r.None? ==> forall j :: 0 <= j < n ==> !Eligible(d, j)
  {
    if n == 0 then None
    else
      var best := OldestAmong(d, n - 1);
      if !Eligible(d, n - 1) then best
      else if best.None? || d.queue[n - 1].createdAt < d.queue[best.value].createdAt then Some(n - 1)
      else best
  }

  /** The `SELECT ... WHERE aq.status = 'pending' ORDER BY aq.created_at LIMIT 1` of getNextAudio. */
  function OldestPending(d: Db): (r: Option<nat>)
    ensures r.Some? ==> r.value < |d.queue| && IsOldestPending(d, r.value)
    ensures r.None? <==> forall j :: 0 <= j < |d.queue| ==> !Eligible(d, j)
  {
    OldestAmong(d, |d.queue|)
  }

  /** The ordering has one first element: two oldest pending entries are the same entry. */
  lemma OldestPendingUnique(d: Db, i: nat, j: nat)
    requires IsOldestPending(d, i) && IsOldestPending(d, j)
    ensures i == j
  {
    assert ServedBefore(d.queue, i, j) && ServedBefore(d.queue, j, i);
  }

  /** One committed getNextAudio transaction: the new database and the returned row (None is `null`). */
  function Next(d: Db): (Db, Option<NextAudioRow>)
  {
    if SomePlaying(d.queue) then (d, None)
    else
      match OldestPending(d)
      case None => (d, None)
      case Some(i) => (d.(queue := SetStatus(d.queue, d.queue[i].id, Playing)), JoinEntry(d, d.queue[i]))
  }

  /** One finishAudio statement: `UPDATE audio_queue SET status = 'done' WHERE id = $1`. */
  function Finish(d: Db, audioId: nat): Db
  {
    d.(queue := SetStatus(d.queue, audioId, Done))
  }

  // ---------------------------------------------------------------------------------------------
  // getNextAudio

  /** While any entry is playing, getNextAudio returns null and changes nothing. */
  lemma NextWhilePlaying(d: Db)
    requires SomePlaying(d.queue)
    ensures Next(d) == (d, None)
  {
  }

  /** With no eligible pending entry, getNextAudio returns null and changes nothing. */
  lemma NextWithoutPending(d: Db)
    requires forall j :: 0 <= j < |d.queue| ==> !Eligible(d, j)
    ensures Next(d) == (d, None)
  {
  }

  /** getNextAudio returns null exactly when an entry is playing or none is eligible. */
  lemma NextNullIff(d: Db)
    ensures Next(d).1.None? <==>
      SomePlaying(d.queue) || forall j :: 0 <= j < |d.queue| ==> !Eligible(d, j)
  {
    if !SomePlaying(d.queue) && OldestPending(d).Some? {
      assert Eligible(d, OldestPending(d).value);
    }
  }

  /** When nothing is playing and `i` is the oldest pending entry, getNextAudio makes exactly that
      entry `playing`, leaves every other entry and the call and sector tables as they were, and
      returns the entry's id joined with its call's and sector's names. */
  lemma NextPromotesOldest(d: Db, i: nat)
    requires WellFormed(d) && !SomePlaying(d.queue) && IsOldestPending(d, i)
    ensures i < |d.queue|
    ensures Next(d).0 == d.(queue := d.queue[i := d.queue[i].(status := Playing)])
    ensures Next(d).1 == JoinEntry(d, d.queue[i]) && Next(d).1.Some?
    ensures Next(d).1.value.id == d.queue[i].id
  {
    var o := OldestPending(d);
    assert o.Some?;
    OldestPendingUnique(d, o.value, i);
    SetStatusAt(d.queue, i, Playing);
  }

  /** A row getNextAudio returns belongs to the oldest pending entry, which was not preceded by a
      playing entry. */
  lemma NextReturnsOldest(d: Db)
    requires Next(d).1.Some?
    ensures !SomePlaying(d.queue)
    ensures exists i ::
              0 <= i < |d.queue| && IsOldestPending(d, i) &&
              d.queue[i].id == Next(d).1.value.id && Next(d).1 == JoinEntry(d, d.queue[i])
  {
    var i := OldestPending(d).value;
    assert d.queue[i].id == Next(d).1.value.id;
  }

  /** getNextAudio keeps the schema's constraints. */
  lemma NextKeepsWellFormed(d: Db)
    requires WellFormed(d)
    ensures WellFormed(Next(d).0)
  {
    if !SomePlaying(d.queue) && OldestPending(d).Some? {
      SetStatusKeepsWellFormed(d, d.queue[OldestPending(d).value].id, Playing);
    }
  }

  /** getNextAudio keeps "at most one entry is playing"; after a promotion the returned entry is
      the only one playing. */
  lemma NextKeepsAtMostOnePlaying(d: Db)
    requires WellFormed(d) && AtMostOnePlaying(d.queue)
    ensures AtMostOnePlaying(Next(d).0.queue)
    ensures Next(d).1.Some? ==> forall k :: 0 <= k < |Next(d).0.queue| ==>
      (Next(d).0.queue[k].status == Playing <==> Next(d).0.queue[k].id == Next(d).1.value.id)
  {
    if !SomePlaying(d.queue) && OldestPending(d).Some? {
      var i := OldestPending(d).value;
      NextPromotesOldest(d, i);
      var q' := Next(d).0.queue;
      forall k | 0 <= k < |q'|
        ensures q'[k].status == Playing <==> q'[k].id == d.queue[i].id
      {
        if k != i {
          assert AudioIds(d.queue)[k] != AudioIds(d.queue)[i];
          assert d.queue[k].status != Playing;
        }
      }
    }
  }

  // ---------------------------------------------------------------------------------------------
  // finishAudio

  /** finishAudio sets every entry with the given id to `done` whatever its prior status, and
      changes no other field, no other entry and no other table. */
  lemma FinishMarksDone(d: Db, audioId: nat)
    ensures Finish(d, audioId).sectors == d.sectors && Finish(d, audioId).calls == d.calls
    ensures |Finish(d, audioId).queue| == |d.queue|
    ensures forall k :: 0 <= k < |d.queue| ==>
      Finish(d, audioId).queue[k].status == (if d.queue[k].id == audioId then Done else d.queue[k].status) &&
      Finish(d, audioId).queue[k].(status := d.queue[k].status) == d.queue[k]
  {
  }

  /** finishAudio with an id no entry has changes nothing (and still reports success). */
  lemma FinishUnknownId(d: Db, audioId: nat)
    requires audioId !in AudioIds(d.queue)
    ensures Finish(d, audioId) == d
  {
    assert Finish(d, audioId).queue == d.queue by {
      forall k | 0 <= k < |d.queue| ensures Finish(d, audioId).queue[k] == d.queue[k] {
        assert AudioIds(d.queue)[k] == d.queue[k].id;
      }
    }
  }

  /** Finishing twice is finishing once. */
  lemma FinishIdempotent(d: Db, audioId: nat)
    ensures Finish(Finish(d, audioId), audioId) == Finish(d, audioId)
  {
    assert Finish(Finish(d, audioId), audioId).queue == Finish(d, audioId).queue;
  }

  /** finishAudio keeps the schema's constraints. */
  lemma FinishKeepsWellFormed(d: Db, audioId: nat)
    requires WellFormed(d)
    ensures WellFormed(Finish(d, audioId))
  {
    SetStatusKeepsWellFormed(d, audioId, Done);
  }

  /** finishAudio never adds a playing entry. */
  lemma FinishKeepsAtMostOnePlaying(d: Db, audioId: nat)
    requires AtMostOnePlaying(d.queue)
    ensures AtMostOnePlaying(Finish(d, audioId).queue)
  {
    var q' := Finish(d, audioId).queue;
    forall i, j | 0 <= i < |q'| && 0 <= j < |q'| && q'[i].status == Playing && q'[j].status == Playing
      ensures i == j
    {
      assert d.queue[i].status == Playing && d.queue[j].status == Playing;
    }
  }

  /** While an entry plays, getNextAudio refuses; once finishAudio has closed that entry, the next
      getNextAudio promotes the oldest pending entry if there is one. */
  lemma FinishThenNext(d: Db, k: nat)
    requires WellFormed(d) && AtMostOnePlaying(d.queue)
    requires k < |d.queue| && d.queue[k].status == Playing
    requires exists j :: 0 <= j < |d.queue| && Eligible(d, j)
    ensures Next(d).1.None?
    ensures Next(Finish(d, d.queue[k].id)).1.Some?
  {
    assert SomePlaying(d.queue);
    var d' := Finish(d, d.queue[k].id);
    var j :| 0 <= j < |d.queue| && Eligible(d, j);
    assert !SomePlaying(d'.queue) by {
      forall i | 0 <= i < |d'.queue| ensures d'.queue[i].status != Playing {
        if d.queue[i].id != d.queue[k].id {
          assert i != k;
        }
      }
    }
    assert d'.queue[j] == d.queue[j] by {
      assert j != k;
      assert AudioIds(d.queue)[j] != AudioIds(d.queue)[k];
    }
    assert d'.calls == d.calls && d'.sectors == d.sectors;
    assert Eligible(d', j);
    NextNullIff(d');
  }

  // ---------------------------------------------------------------------------------------------
  // The transactions

  /** getNextAudio. `fault` stands for any of its queries throwing: the transaction is rolled back
      and the error is passed on. */
  method GetNextAudio(db: Database, fault: bool) returns (r: Result<Option<NextAudioRow>>)
    requires db.Valid()
    modifies db
    ensures db.Valid()
    ensures fault ==> r == Failed && db.Snapshot() == old(db.Snapshot())
    ensures !fault ==> r == Ok(Next(old(db.Snapshot())).1) && db.Snapshot() == Next(old(db.Snapshot())).0
  {
    var begin := db.Snapshot();
    if fault {
      return Failed;
    }
    if SomePlaying(db.queue) {
      NextWhilePlaying(begin);
      return Ok(None);
    }
    var next := OldestPending(begin);
    if next.None? {
      return Ok(None);
    }
    var i := next.value;
    var row := JoinEntry(begin, db.queue[i]);
    NextKeepsWellFormed(begin);
    db.queue := SetStatus(db.queue, db.queue[i].id, Playing);
    assert db.Snapshot() == Next(begin).0;
    r := Ok(row);
  }

  /** finishAudio: a single UPDATE outside any transaction, answering `{ success: true }`. `fault`
      stands for the UPDATE throwing, which leaves the table as it was. */
  method FinishAudio(db: Database, audioId: nat, fault: bool) returns (r: Result<bool>)
    requires db.Valid()
    modifies db
    ensures db.Valid()
    ensures fault ==> r == Failed && db.Snapshot() == old(db.Snapshot())
    ensures !fault ==> r == Ok(true) && db.Snapshot() == Finish(old(db.Snapshot()), audioId)
  {
    if fault {
      return Failed;
    }
    db.queue := SetStatus(db.queue, audioId, Done);
    FinishKeepsWellFormed(old(db.Snapshot()), audioId);
    r := Ok(true);
  }
}
