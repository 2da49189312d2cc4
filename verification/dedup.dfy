/** The event de-duplication gate: a table of processed event ids, each
    kept for seven days. Every store call may fail; a failure is an explicit
    flag, and the gate swallows it (a failed lookup reads as "not a
    duplicate", a failed write or sweep changes nothing). */
module Dedup {
  import opened Results
  import Seqs

  const DayMs: int := 24 * 60 * 60 * 1000
  /** `expiresAt.setDate(expiresAt.getDate() + 7)`, as a fixed span. */
  const RetentionMs: int := 7 * DayMs

  datatype DedupRecord = DedupRecord(eventId: string, sourceService: Option<string>, expiresAt: int)

  /** The `eventDedup` table: `eventId` is its unique key. */
  type DedupTable = seq<DedupRecord>

  ghost predicate UniqueIds(t: DedupTable) {
    forall i, j :: 0 <= i < j < |t| ==> t[i].eventId != t[j].eventId
  }

  /** `!eventId` for an optional string. */
  predicate Absent(eventId: Option<string>) {
    eventId.None? || eventId.value == ""
  }

  /** `findUnique({ where: { eventId } })`. */
  function Find(t: DedupTable, eventId: string): (r: Option<DedupRecord>)
    ensures r.Some? <==> exists i :: 0 <= i < |t| && t[i].eventId == eventId
    ensures r.Some? ==> r.value in t && r.value.eventId == eventId
  {
    if |t| == 0 then None
    else if t[0].eventId == eventId then Some(t[0])
    else
      assert forall i :: 1 <= i < |t| ==> t[i] == t[1..][i - 1];
      Find(t[1..], eventId)
  }

  /** `isDuplicate`: true exactly when the lookup succeeds and finds the id,
      whatever its source service and whether or not it has expired. */
  function IsDuplicate(t: DedupTable, eventId: Option<string>, lookupFails: bool): (r: bool)
    ensures Absent(eventId) ==> !r
    ensures lookupFails ==> !r
    ensures !Absent(eventId) && !lookupFails ==>
      (r <==> exists i :: 0 <= i < |t| && t[i].eventId == eventId.value)
  {
    if Absent(eventId) then false
    else if lookupFails then false
    else Find(t, eventId.value).Some?
  }

  /** `markAsProcessed` at time `now`. A create that fails, including the
      unique-key violation of an id already present, leaves the table as it
      was. */
  function MarkAsProcessed(t: DedupTable, eventId: Option<string>, sourceService: Option<string>, now: int, createFails: bool): (r: DedupTable)
    ensures Absent(eventId) || createFails ==> r == t
    ensures !Absent(eventId) && Find(t, eventId.value).Some? ==> r == t
    ensures !Absent(eventId) && !createFails && Find(t, eventId.value).None? ==>
      r == t + [DedupRecord(eventId.value, sourceService, now + RetentionMs)]
  {
    if Absent(eventId) || createFails then t
    else if Find(t, eventId.value).Some? then t
    else t + [DedupRecord(eventId.value, sourceService, now + RetentionMs)]
  }

  predicate Expired(now: int, rec: DedupRecord) {
    rec.expiresAt < now
  }

  /** The records a sweep at `now` deletes, and the ones it keeps. */
  function ExpiredRecords(t: DedupTable, now: int): seq<DedupRecord> {
    Seqs.Filter(t, (rec: DedupRecord) => Expired(now, rec))
  }

  function LiveRecords(t: DedupTable, now: int): seq<DedupRecord> {
    Seqs.Filter(t, (rec: DedupRecord) => !Expired(now, rec))
  }

  /** Every record is either expired or live, so the two parts add up. */
  lemma {:induction false} PartsAddUp(t: DedupTable, now: int)
    ensures |ExpiredRecords(t, now)| + |LiveRecords(t, now)| == |t|
  {
    if |t| > 0 {
      PartsAddUp(t[1..], now);
    }
  }

  /** `cleanupExpired` at time `now`: deletes the records whose expiry is
      strictly before `now` and returns how many went; a failing delete
      returns 0 and deletes nothing. */
  function CleanupExpired(t: DedupTable, now: int, deleteFails: bool): (r: (DedupTable, nat))
    ensures deleteFails ==> r == (t, 0)
    ensures !deleteFails ==>
      && (forall rec :: rec in r.0 <==> rec in t && rec.expiresAt >= now)
      && r.1 == |ExpiredRecords(t, now)|
      && r.1 == |t| - |r.0|
  {
    if deleteFails then (t, 0)
    else
      PartsAddUp(t, now);
      (LiveRecords(t, now), |ExpiredRecords(t, now)|)
  }

  /** Marking keeps event ids unique. */
  lemma MarkKeepsUnique(t: DedupTable, eventId: Option<string>, sourceService: Option<string>, now: int, createFails: bool)
    requires UniqueIds(t)
    ensures UniqueIds(MarkAsProcessed(t, eventId, sourceService, now, createFails))
  {
  }

  /** Sweeping keeps event ids unique. */
  lemma SweepKeepsUnique(t: DedupTable, now: int, deleteFails: bool)
    requires UniqueIds(t)
    ensures UniqueIds(CleanupExpired(t, now, deleteFails).0)
  {
    if !deleteFails {
      var live := LiveRecords(t, now);
      Seqs.FilterPairwise(t, (rec: DedupRecord) => !Expired(now, rec), IdsDiffer);
      forall i, j | 0 <= i < j < |live|
        ensures live[i].eventId != live[j].eventId
      {
        assert IdsDiffer(live[i], live[j]);
      }
    }
  }

  predicate IdsDiffer(a: DedupRecord, b: DedupRecord) {
    a.eventId != b.eventId
  }

  /** A successful mark makes the id a duplicate, with the caller's source
      and an expiry seven days out; the record survives every sweep up to
      and including its expiry instant, and after any later sweep the id is
      no longer a duplicate. */
  lemma MarkThenDuplicate(t: DedupTable, e: string, source: Option<string>, now: int, later: int)
    requires e != "" && Find(t, e).None?
    ensures var marked := MarkAsProcessed(t, Some(e), source, now, false);
      var rec := DedupRecord(e, source, now + RetentionMs);
      && rec in marked
      && IsDuplicate(marked, Some(e), false)
      && (later <= now + RetentionMs ==> rec in CleanupExpired(marked, later, false).0)
      && (later > now + RetentionMs ==> rec !in CleanupExpired(marked, later, false).0)
      && (later > now + RetentionMs ==> !IsDuplicate(CleanupExpired(marked, later, false).0, Some(e), false))
  {
    var marked := MarkAsProcessed(t, Some(e), source, now, false);
    var rec := DedupRecord(e, source, now + RetentionMs);
    assert marked[|t|] == rec;
    if later > now + RetentionMs {
      var swept := CleanupExpired(marked, later, false).0;
      forall i | 0 <= i < |swept|
        ensures swept[i].eventId != e
      {
        assert swept[i] in marked && swept[i] != rec;
      }
    }
  }

  /** Marking an id twice keeps the first record: the second create
      violates the unique key and is swallowed. */
  lemma MarkTwiceKeepsFirst(t: DedupTable, e: string, s1: Option<string>, s2: Option<string>, t1: int, t2: int)
    requires e != "" && Find(t, e).None?
    ensures var once := MarkAsProcessed(t, Some(e), s1, t1, false);
      MarkAsProcessed(once, Some(e), s2, t2, false) == once
  {
    var once := MarkAsProcessed(t, Some(e), s1, t1, false);
    assert once[|t|].eventId == e;
  }
}
