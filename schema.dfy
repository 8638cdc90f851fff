/** The backend's relational store: the `sector`, `call` and `audio_queue` tables as sequences of
    rows, kept in insertion order, together with the clock value NOW() reads inside a transaction
    and the next value of each table's id sequence. */
module Schema {
  import opened Common

  /** Outcome of one transaction: its value, or a database error after which it was rolled back. */
  datatype Result<T> = Ok(value: T) | Failed

  /** `audio_queue.status` */
  datatype AudioStatus = Pending | Playing | Done

  /** A `sector` row. */
  datatype Sector = Sector(id: nat, name: string)

  /** A `call` row; `status` is free text in the table. */
  datatype Call = Call(id: nat, patientName: string, doctorName: string, sectorId: nat,
                       status: string, createdAt: nat, startedAt: Option<nat>)

  /** An `audio_queue` row. */
  datatype AudioEntry = AudioEntry(id: nat, callId: nat, status: AudioStatus, createdAt: nat)

  /** The whole database as a value. `now` is what NOW() and the `created_at` defaults read;
      the three counters are the next ids the tables' sequences hand out. */
  datatype Db = Db(sectors: seq<Sector>, calls: seq<Call>, queue: seq<AudioEntry>,
                   now: nat, nextSectorId: nat, nextCallId: nat, nextAudioId: nat)

  /** The status createCall writes into a new call. */
  const Calling: string := "calling"

  function SectorIds(sectors: seq<Sector>): (r: seq<nat>)
    ensures |r| == |sectors|
  {
    seq(|sectors|, k requires 0 <= k < |sectors| => sectors[k].id)
  }

  function SectorNames(sectors: seq<Sector>): (r: seq<string>)
    ensures |r| == |sectors|
  {
    seq(|sectors|, k requires 0 <= k < |sectors| => sectors[k].name)
  }

  function CallIds(calls: seq<Call>): (r: seq<nat>)
    ensures |r| == |calls|
  {
    seq(|calls|, k requires 0 <= k < |calls| => calls[k].id)
  }

  function AudioIds(queue: seq<AudioEntry>): (r: seq<nat>)
    ensures |r| == |queue|
  {
    seq(|queue|, k requires 0 <= k < |queue| => queue[k].id)
  }

  /** Lookup of a sector row by primary key. */
  function SectorIndex(sectors: seq<Sector>, id: nat): (r: Option<nat>)
    ensures r.Some? ==> r.value < |sectors| && sectors[r.value].id == id
    ensures r.None? <==> id !in SectorIds(sectors)
  {
    IndexOf(SectorIds(sectors), id)
  }

  /** Lookup of a call row by primary key. */
  function CallIndex(calls: seq<Call>, id: nat): (r: Option<nat>)
    ensures r.Some? ==> r.value < |calls| && calls[r.value].id == id
    ensures r.None? <==> id !in CallIds(calls)
  {
    IndexOf(CallIds(calls), id)
  }

  /** What the model assumes of the tables. Sector names are unique, which `ON CONFLICT (name)`
      relies on. Beyond that it assumes unique primary keys below their sequence's next value,
      that every call names an existing sector and every queue entry an existing call, and that no
      row is stamped after NOW(). */
  predicate WellFormed(d: Db) {
    && Distinct(SectorIds(d.sectors))
    && Distinct(SectorNames(d.sectors))
    && Distinct(CallIds(d.calls))
    && Distinct(AudioIds(d.queue))
    && (forall k :: 0 <= k < |d.sectors| ==> d.sectors[k].id < d.nextSectorId)
    && (forall k :: 0 <= k < |d.calls| ==>
          d.calls[k].id < d.nextCallId && d.calls[k].createdAt <= d.now
          && d.calls[k].sectorId in SectorIds(d.sectors))
    && (forall k :: 0 <= k < |d.queue| ==>
          d.queue[k].id < d.nextAudioId && d.queue[k].createdAt <= d.now
          && d.queue[k].callId in CallIds(d.calls))
  }

  /** No two queue entries are `playing`. */
  predicate AtMostOnePlaying(queue: seq<AudioEntry>) {
    forall i, j ::
      0 <= i < |queue| && 0 <= j < |queue| && queue[i].status == Playing && queue[j].status == Playing
      ==> i == j
  }

  /** `UPDATE audio_queue SET status = s WHERE id = id`: every entry with that id gets status `s`. */
  function SetStatus(queue: seq<AudioEntry>, id: nat, s: AudioStatus): (r: seq<AudioEntry>)
    ensures |r| == |queue|
  {
    seq(|queue|, k requires 0 <= k < |queue| =>
      if queue[k].id == id then queue[k].(status := s) else queue[k])
  }

  /** With unique ids, the UPDATE by id rewrites the one entry that has it and nothing else. */
  lemma SetStatusAt(queue: seq<AudioEntry>, i: nat, s: AudioStatus)
    requires Distinct(AudioIds(queue)) && i < |queue|
    ensures SetStatus(queue, queue[i].id, s) == queue[i := queue[i].(status := s)]
  {
    var r := SetStatus(queue, queue[i].id, s);
    forall k | 0 <= k < |queue|
      ensures r[k] == queue[i := queue[i].(status := s)][k]
    {
      if k != i {
        assert AudioIds(queue)[k] != AudioIds(queue)[i];
      }
    }
  }

  /** A status update touches no key, no timestamp and no other table, so the constraints hold
      after it. */
  lemma SetStatusKeepsWellFormed(d: Db, id: nat, s: AudioStatus)
    requires WellFormed(d)
    ensures WellFormed(d.(queue := SetStatus(d.queue, id, s)))
  {
    var q := SetStatus(d.queue, id, s);
    forall k | 0 <= k < |q|
      ensures q[k].id == d.queue[k].id && q[k].callId == d.queue[k].callId
      ensures q[k].createdAt == d.queue[k].createdAt
    {
    }
    assert AudioIds(q) == AudioIds(d.queue);
  }

  /** The database the backend talks to. Each service transaction is one method that reads and
      reassigns these fields. */
  class Database {
    var sectors: seq<Sector>
    var calls: seq<Call>
    var queue: seq<AudioEntry>
    var now: nat
    var nextSectorId: nat
    var nextCallId: nat
    var nextAudioId: nat

    function Snapshot(): Db
      reads this
    {
      Db(sectors, calls, queue, now, nextSectorId, nextCallId, nextAudioId)
    }

    predicate Valid()
      reads this
    {
      WellFormed(Snapshot())
    }

    /** An empty database whose sequences start at 1. */
    constructor ()
      ensures Valid()
      ensures Snapshot() == Db([], [], [], 0, 1, 1, 1)
    {
      sectors, calls, queue := [], [], [];
      now := 0;
      nextSectorId, nextCallId, nextAudioId := 1, 1, 1;
    }

    /** The database clock moves forward between transactions. */
    method AdvanceClock(elapsed: nat)
      requires Valid()
      modifies this
      ensures Valid()
      ensures Snapshot() == old(Snapshot()).(now := old(now) + elapsed)
    {
      now := now + elapsed;
    }

    /** ROLLBACK: every table and counter takes back the value it had at BEGIN. */
    method Restore(saved: Db)
      modifies this
      ensures Snapshot() == saved
    {
      sectors, calls, queue := saved.sectors, saved.calls, saved.queue;
      now := saved.now;
      nextSectorId, nextCallId, nextAudioId := saved.nextSectorId, saved.nextCallId, saved.nextAudioId;
    }
  }
}
