/**
The certificate store (internal/store): one map from serial to record, what each operation
does to it, and the two implementations. Memory keeps records under the decimal text of
their serial; SQLite keeps rows of text, Unix seconds and nullable columns. A database
error is an input: a failing call reports Fault and its transaction leaves no trace.
*/
module Store {
  import opened Clock
  import opened Decimal
  import opened Wrappers

  datatype Status = Valid | Revoked

  datatype CertRecord = CertRecord(
    serial: int,
    subject: string,
    notAfter: Instant,
    status: Status,
    revokedAt: Instant,
    reason: int
  )

  datatype StoreError = CertNotFound | DuplicateSerial | InvalidReason | CorruptCounter | Fault

  type Records = map<int, CertRecord>

  // The reasons of section 5.3.1 of RFC 5280 that a base CRL may carry.
  predicate ValidReason(reason: int): (valid: bool)
    ensures valid <==> 0 <= reason <= 10 && reason != 7 && reason != 8
  {
    reason in {0, 1, 2, 3, 4, 5, 6, 9, 10}
  }

  // What issuance hands to Record.
  predicate FreshlyIssued(rec: CertRecord) {
    rec.status == Valid && rec.revokedAt == ZERO_INSTANT && rec.reason == 0
  }

  function Normalized(rec: CertRecord): CertRecord {
    rec.(notAfter := TruncateToSecond(rec.notAfter), revokedAt := TruncateToSecond(rec.revokedAt))
  }

  // stored is rec in whole seconds.
  predicate StoredAs(rec: CertRecord, stored: CertRecord) {
    && stored.serial == rec.serial && stored.subject == rec.subject
    && stored.status == rec.status && stored.reason == rec.reason
    && SameSecond(rec.notAfter, stored.notAfter) && SameSecond(rec.revokedAt, stored.revokedAt)
  }

  function AfterRecord(m: Records, rec: CertRecord): Records {
    if rec.serial in m then m else m[rec.serial := Normalized(rec)]
  }

  // SQLite inserts a row with its revocation columns null, whatever the record says of them.
  function Inserted(rec: CertRecord): CertRecord {
    Normalized(rec).(revokedAt := ZERO_INSTANT, reason := 0)
  }

  function AfterInsert(m: Records, rec: CertRecord): Records {
    if rec.serial in m then m else m[rec.serial := Inserted(rec)]
  }

  // A record of which SQLite drops nothing.
  predicate CarriesNoRevocation(rec: CertRecord) {
    TruncateToSecond(rec.revokedAt) == ZERO_INSTANT && rec.reason == 0
  }

  function RecordError(m: Records, rec: CertRecord): Option<StoreError> {
    if rec.serial in m then Some(DuplicateSerial) else None
  }

  function RevokedRecord(rec: CertRecord, reason: int, at: Instant): CertRecord {
    rec.(status := Revoked, revokedAt := TruncateToSecond(at), reason := reason)
  }

  function RevokeError(m: Records, serial: int, reason: int): Option<StoreError> {
    if !ValidReason(reason) then Some(InvalidReason)
    else if serial !in m then Some(CertNotFound)
    else None
  }

  function AfterRevoke(m: Records, serial: int, reason: int, at: Instant): Records {
    if RevokeError(m, serial, reason).Some? || m[serial].status == Revoked
    then m
    else m[serial := RevokedRecord(m[serial], reason, at)]
  }

  predicate IsRevoked(m: Records, serial: int) {
    serial in m && m[serial].status == Revoked
  }

  // Every record sits under its own serial.
  ghost predicate Keyed(m: Records) {
    forall serial <- m :: m[serial].serial == serial
  }

  // The revoked records of m, each once, in no particular order.
  ghost predicate IsListing(listing: seq<CertRecord>, m: Records) {
    && (forall rec <- listing :: rec.serial in m && m[rec.serial] == rec && rec.status == Revoked)
    && (forall serial <- m :: m[serial].status == Revoked ==> m[serial] in listing)
    && (forall i, j :: 0 <= i < j < |listing| ==> listing[i].serial != listing[j].serial)
  }

  function SeedCrlNumber(now: Instant): (n: int)
    ensures n >= 1
  {
    if UnixMilli(now) < 1 then 1 else UnixMilli(now)
  }

  // The number handed out next: one more than the last, or a seed no lower than the floor.
  function NextNumber(last: Option<int>, floor: Option<int>, now: Instant): (n: int)
    ensures last.Some? ==> n == last.value + 1
    ensures last.None? ==> n >= 1 && n >= UnixMilli(now) && (floor.Some? ==> n >= floor.value)
    ensures last.None? ==> n == 1 || n == UnixMilli(now) || floor == Some(n)
  {
    match last
    case Some(n) => n + 1
    case None =>
      var seed := SeedCrlNumber(now);
      if floor.Some? && floor.value > seed then floor.value else seed
  }

  // The operations of the store, and what a run of them makes of the map.

  datatype StoreOp =
    | DoRecord(rec: CertRecord)
    | DoGet(serial: int)
    | DoRevoke(serial: int, reason: int, at: Instant)
    | DoRevoked
    | DoNextCrlNumber(now: Instant)

  function AfterOp(m: Records, op: StoreOp): Records {
    match op
    case DoRecord(rec) => AfterRecord(m, rec)
    case DoRevoke(serial, reason, at) => AfterRevoke(m, serial, reason, at)
    case _ => m
  }

  function AfterOps(m: Records, ops: seq<StoreOp>): Records
    decreases ops
  {
    if ops == [] then m else AfterOps(AfterOp(m, ops[0]), ops[1..])
  }

  // No serial but one may have changed.
  ghost predicate OnlyAt(m: Records, m': Records, serial: int) {
    && (forall s <- m :: s != serial ==> s in m' && m'[s] == m[s])
    && (forall s <- m' :: s != serial ==> s in m)
  }

  /** What is recorded is what was given, in whole seconds, under its serial and nowhere else; a serial on record refuses another. */
  lemma RecordIsStored(m: Records, rec: CertRecord)
    ensures RecordError(m, rec) == if rec.serial in m then Some(DuplicateSerial) else None
    ensures
      var m' := AfterRecord(m, rec);
      && (rec.serial in m ==> m' == m)
      && (rec.serial !in m ==> OnlyAt(m, m', rec.serial) && rec.serial in m' && StoredAs(rec, m'[rec.serial]))
    ensures
      var m' := AfterInsert(m, rec);
      && (rec.serial in m ==> m' == m)
      && (rec.serial !in m ==>
            && OnlyAt(m, m', rec.serial) && rec.serial in m'
            && StoredAs(rec.(revokedAt := ZERO_INSTANT, reason := 0), m'[rec.serial]))
  {
    TruncateIsGreatest(ZERO_INSTANT, ZERO_INSTANT);
  }

  // rec revoked now: the reason and the instant asked for, and nothing else of it changed.
  predicate RevokedAs(rec: CertRecord, reason: int, at: Instant, revoked: CertRecord) {
    && revoked.status == Revoked && revoked.reason == reason && SameSecond(at, revoked.revokedAt)
    && revoked.serial == rec.serial && revoked.subject == rec.subject && revoked.notAfter == rec.notAfter
  }

  /** A revocation records the reason and time asked for, unless the serial is revoked already; nothing else changes. */
  lemma RevocationIsStored(m: Records, serial: int, reason: int, at: Instant)
    ensures RevokeError(m, serial, reason)
         == (if !(0 <= reason <= 10) || reason == 7 || reason == 8 then Some(InvalidReason)
             else if serial !in m then Some(CertNotFound)
             else None)
    ensures
      var m' := AfterRevoke(m, serial, reason, at);
      && (RevokeError(m, serial, reason).Some? ==> m' == m)
      && (RevokeError(m, serial, reason).None? ==>
            && m'.Keys == m.Keys && OnlyAt(m, m', serial)
            && (m[serial].status == Revoked ==> m' == m)
            && (m[serial].status == Valid ==> RevokedAs(m[serial], reason, at, m'[serial])))
  {
  }

  /** No operation moves a record off its serial, forgets one, or changes its subject or expiry. */
  lemma {:induction false} RecordsStay(m: Records, ops: seq<StoreOp>)
    requires Keyed(m)
    ensures Keyed(AfterOps(m, ops))
    ensures forall serial <- m ::
              && serial in AfterOps(m, ops) && AfterOps(m, ops)[serial].subject == m[serial].subject
              && AfterOps(m, ops)[serial].notAfter == m[serial].notAfter
    decreases ops
  {
    if ops == [] {
    } else {
      RecordsStay(AfterOp(m, ops[0]), ops[1..]);
    }
  }

  /**
  Revocation is permanent and the first one wins: whatever is done to the store afterwards,
  recording the same serial again included, the record keeps its first time and reason.
  */
  lemma {:induction false} FirstRevocationWins(m: Records, serial: int, reason: int, at: Instant, later: seq<StoreOp>)
    requires serial in m && m[serial].status == Valid && ValidReason(reason)
    ensures
      var after := AfterOps(AfterRevoke(m, serial, reason, at), later);
      serial in after && RevokedAs(m[serial], reason, at, after[serial])
  {
    RevokedStaysSame(AfterRevoke(m, serial, reason, at), serial, later);
  }

  lemma {:induction false} RevokedStaysSame(m: Records, serial: int, later: seq<StoreOp>)
    requires IsRevoked(m, serial)
    ensures var after := AfterOps(m, later); serial in after && after[serial] == m[serial]
    decreases later
  {
    if later == [] {
    } else {
      RevokedStaysSame(AfterOp(m, later[0]), serial, later[1..]);
    }
  }

  // Records under the decimal text of their serials, as both implementations keep them.

  type TextRecords = map<string, CertRecord>

  ghost predicate TextKeyed(t: TextRecords) {
    forall key <- t :: key == Print(t[key].serial)
  }

  ghost function Decoded(t: TextRecords): (m: Records)
    requires TextKeyed(t)
    ensures forall serial :: serial in m <==> Print(serial) in t
    ensures forall serial <- m :: m[serial] == t[Print(serial)]
  {
    var serials := set key | key in t :: t[key].serial;
    assert forall serial :: Print(serial) in t ==> serial in serials by {
      forall serial | Print(serial) in t ensures serial in serials {
        PrintIsInjective(serial, t[Print(serial)].serial);
      }
    }
    map serial | serial in serials :: t[Print(serial)]
  }

  lemma DecodedIsKeyed(t: TextRecords)
    requires TextKeyed(t)
    ensures Keyed(Decoded(t))
  {
    forall serial | serial in Decoded(t) ensures Decoded(t)[serial].serial == serial {
      PrintIsInjective(serial, t[Print(serial)].serial);
    }
  }

  /** Writing a record under its text is writing it under its serial: no other key is hit. */
  lemma DecodedUpdate(t: TextRecords, rec: CertRecord)
    requires TextKeyed(t)
    ensures TextKeyed(t[Print(rec.serial) := rec])
    ensures Decoded(t[Print(rec.serial) := rec]) == Decoded(t)[rec.serial := rec]
  {
    var u := t[Print(rec.serial) := rec];
    forall serial
      ensures serial in Decoded(u) <==> serial in Decoded(t)[rec.serial := rec]
      ensures serial in Decoded(u) ==> Decoded(u)[serial] == Decoded(t)[rec.serial := rec][serial]
    {
      PrintIsInjective(serial, rec.serial);
    }
  }

  // out lists the revoked records found under the keys visited so far.
  ghost predicate ListsVisited(out: seq<CertRecord>, t: TextRecords, visited: set<string>) {
    && (forall rec <- out ::
          && rec.status == Revoked
          && Print(rec.serial) in visited && Print(rec.serial) in t && t[Print(rec.serial)] == rec)
    && (forall key <- visited :: key in t && t[key].status == Revoked ==> t[key] in out)
    && (forall i, j :: 0 <= i < j < |out| ==> out[i].serial != out[j].serial)
  }

  lemma VisitOne(out: seq<CertRecord>, t: TextRecords, visited: set<string>, key: string)
    requires TextKeyed(t) && ListsVisited(out, t, visited) && key in t && key !in visited
    ensures ListsVisited(if t[key].status == Revoked then out + [t[key]] else out, t, visited + {key})
  {
    forall rec | rec in out ensures rec.serial != t[key].serial {
    }
  }

  lemma VisitedAll(out: seq<CertRecord>, t: TextRecords)
    requires TextKeyed(t) && ListsVisited(out, t, t.Keys)
    ensures IsListing(out, Decoded(t))
  {
    forall serial | serial in Decoded(t) && Decoded(t)[serial].status == Revoked
      ensures Decoded(t)[serial] in out
    {
      assert Print(serial) in t.Keys;
    }
  }

  class Memory {
    var records: TextRecords
    var crlNumber: Option<int>

    ghost predicate Valid()
      reads this`records
    {
      TextKeyed(records)
    }

    ghost function Abs(): Records
      reads this`records
      requires Valid()
    {
      Decoded(records)
    }

    constructor ()
      ensures Valid() && Abs() == map[] && crlNumber == None
    {
      records := map[];
      crlNumber := None;
    }

    method Record(rec: CertRecord) returns (err: Option<StoreError>)
      requires Valid()
      modifies this`records
      ensures Valid()
      ensures err == RecordError(old(Abs()), rec)
      ensures Abs() == AfterRecord(old(Abs()), rec)
    {
      var key := Print(rec.serial);
      if key in records {
        return Some(DuplicateSerial);
      }
      DecodedUpdate(records, Normalized(rec));
      records := records[key := Normalized(rec)];
      err := None;
    }

    method Get(serial: int) returns (rec: Option<CertRecord>)
      requires Valid()
      ensures rec == if serial in Abs() then Some(Abs()[serial]) else None
    {
      var key := Print(serial);
      rec := if key in records then Some(records[key]) else None;
    }

    method Revoke(serial: int, reason: int, at: Instant) returns (err: Option<StoreError>)
      requires Valid()
      modifies this`records
      ensures Valid()
      ensures err == RevokeError(old(Abs()), serial, reason)
      ensures Abs() == AfterRevoke(old(Abs()), serial, reason, at)
      ensures err == None && !IsRevoked(old(Abs()), serial) ==>
                serial in Abs() && RevokedAs(old(Abs())[serial], reason, at, Abs()[serial])
    {
      if !ValidReason(reason) {
        return Some(InvalidReason);
      }
      var key := Print(serial);
      if key !in records {
        return Some(CertNotFound);
      }
      var rec := records[key];
      if rec.status == Revoked {
        return None;
      }
      DecodedIsKeyed(records);
      DecodedUpdate(records, RevokedRecord(rec, reason, at));
      records := records[key := RevokedRecord(rec, reason, at)];
      err := None;
    }

    method ListRevoked() returns (out: seq<CertRecord>)
      requires Valid()
      ensures IsListing(out, Abs())
    {
      out := [];
      var left := records.Keys;
      while left != {}
        invariant left <= records.Keys
        invariant ListsVisited(out, records, records.Keys - left)
        decreases |left|
      {
        var key :| key in left;
        VisitOne(out, records, records.Keys - left, key);
        assert records.Keys - (left - {key}) == records.Keys - left + {key};
        if records[key].status == Revoked {
          out := out + [records[key]];
        }
        left := left - {key};
      }
      assert records.Keys - left == records.Keys;
      VisitedAll(out, records);
    }

    method NextCrlNumber(now: Instant) returns (n: int)
      modifies this`crlNumber
      ensures n == NextNumber(old(crlNumber), None, now) && crlNumber == Some(n)
    {
      match crlNumber {
        case None => n := SeedCrlNumber(now);
        case Some(last) => n := last + 1;
      }
      crlNumber := Some(n);
    }
  }

  // A row of the certificates table. The serial column is the primary key.
  datatype Row = Row(
    subject: string,
    notAfter: int,
    status: Status,
    revokedAt: Option<int>,
    reason: Option<int>
  )

  // What scanning a row yields, or None when its serial is not an integer.
  function Scan(serialText: string, row: Row): Option<CertRecord> {
    match Parse(serialText)
    case None => None
    case Some(serial) =>
      Some(CertRecord(
             serial,
             row.subject,
             row.notAfter * SECOND,
             row.status,
             if row.revokedAt.Some? then row.revokedAt.value * SECOND else ZERO_INSTANT,
             if row.reason.Some? then row.reason.value else 0))
  }

  function UnixSeconds(t: Instant): (s: int)
    ensures s * SECOND == TruncateToSecond(t)
  {
    TruncateToSecond(t) / SECOND
  }

  ghost predicate Scannable(rows: map<string, Row>) {
    forall key <- rows :: Scan(key, rows[key]).Some?
  }

  ghost function Scanned(rows: map<string, Row>): TextRecords
    requires Scannable(rows)
  {
    map key | key in rows :: Scan(key, rows[key]).value
  }

  // Writing a row that scans to rec is writing rec.
  lemma ScannedUpdate(rows: map<string, Row>, row: Row, rec: CertRecord)
    requires Scannable(rows) && Scan(Print(rec.serial), row) == Some(rec)
    ensures Scannable(rows[Print(rec.serial) := row])
    ensures Scanned(rows[Print(rec.serial) := row]) == Scanned(rows)[Print(rec.serial) := rec]
  {
  }

  // The row inserted for a record scans back to it without its revocation.
  lemma InsertedRowScans(rec: CertRecord)
    ensures Scan(Print(rec.serial), Row(rec.subject, UnixSeconds(rec.notAfter), rec.status, None, None))
         == Some(Inserted(rec))
  {
    ParsePrint(rec.serial);
  }

  lemma VisitRow(listed: seq<CertRecord>, rows: map<string, Row>, visited: set<string>, key: string, rec: CertRecord)
    requires Scannable(rows) && TextKeyed(Scanned(rows)) && ListsVisited(listed, Scanned(rows), visited)
    requires key in rows && key !in visited && Scan(key, rows[key]) == Some(rec)
    ensures ListsVisited(if rec.status == Revoked then listed + [rec] else listed, Scanned(rows), visited + {key})
  {
    VisitOne(listed, Scanned(rows), visited, key);
  }

  lemma MoveOne(all: set<string>, visited: set<string>, left: set<string>, key: string)
    requires visited + left == all && visited !! left && key in left
    ensures (visited + {key}) + (left - {key}) == all && (visited + {key}) !! (left - {key})
    ensures |left - {key}| < |left|
  {
  }

  // The rows of the query for revoked certificates, in no particular order.
  method ScanRevoked(rows: map<string, Row>) returns (listed: seq<CertRecord>)
    requires Scannable(rows) && TextKeyed(Scanned(rows))
    ensures ListsVisited(listed, Scanned(rows), rows.Keys)
  {
    listed := [];
    var left := rows.Keys;
    ghost var visited: set<string> := {};
    while left != {}
      invariant visited + left == rows.Keys && visited !! left
      invariant ListsVisited(listed, Scanned(rows), visited)
      decreases |left|
    {
      var key :| key in left;
      var rec := Scan(key, rows[key]).value;
      VisitRow(listed, rows, visited, key, rec);
      listed := if rec.status == Revoked then listed + [rec] else listed;
      MoveOne(rows.Keys, visited, left, key);
      left, visited := left - {key}, visited + {key};
    }
  }

  class SQLite {
    var rows: map<string, Row>
    var counter: Option<string>
    const crlNumberFloor: Option<int>

    ghost predicate Valid()
      reads this`rows
    {
      Scannable(rows) && TextKeyed(Scanned(rows))
    }

    ghost function Abs(): Records
      reads this`rows
      requires Valid()
    {
      Decoded(Scanned(rows))
    }

    // The counter as a number, when there is one and it is readable.
    ghost function LastNumber(): Option<int>
      reads this`counter
    {
      if counter.Some? then Parse(counter.value) else None
    }

    ghost predicate CounterReadable()
      reads this`counter
    {
      counter.Some? ==> Parse(counter.value).Some?
    }

    constructor (floor: Option<int>)
      ensures Valid() && Abs() == map[] && CounterReadable() && LastNumber() == None
      ensures crlNumberFloor == floor
    {
      rows := map[];
      counter := None;
      crlNumberFloor := floor;
    }

    method Record(rec: CertRecord, fault: bool) returns (err: Option<StoreError>)
      requires Valid()
      modifies this`rows
      ensures Valid()
      ensures err == if fault then Some(Fault) else RecordError(old(Abs()), rec)
      ensures Abs() == if fault then old(Abs()) else AfterInsert(old(Abs()), rec)
    {
      if fault {
        return Some(Fault);
      }
      var key := Print(rec.serial);
      if key in rows {
        return Some(DuplicateSerial);
      }
      var row := Row(rec.subject, UnixSeconds(rec.notAfter), rec.status, None, None);
      InsertedRowScans(rec);
      ScannedUpdate(rows, row, Inserted(rec));
      DecodedUpdate(Scanned(rows), Inserted(rec));
      rows := rows[key := row];
      err := None;
    }

    method Get(serial: int, fault: bool) returns (rec: Result<Option<CertRecord>, StoreError>)
      requires Valid()
      ensures rec == if fault then Err(Fault) else Ok(if serial in Abs() then Some(Abs()[serial]) else None)
    {
      if fault {
        return Err(Fault);
      }
      var key := Print(serial);
      rec := if key in rows then Ok(Scan(key, rows[key])) else Ok(None);
    }

    method Revoke(serial: int, reason: int, at: Instant, fault: bool) returns (err: Option<StoreError>)
      requires Valid()
      modifies this`rows
      ensures Valid()
      ensures err == if fault && ValidReason(reason) then Some(Fault) else RevokeError(old(Abs()), serial, reason)
      ensures Abs() == if fault then old(Abs()) else AfterRevoke(old(Abs()), serial, reason, at)
      ensures err == None && !IsRevoked(old(Abs()), serial) ==>
                serial in Abs() && RevokedAs(old(Abs())[serial], reason, at, Abs()[serial])
    {
      if !ValidReason(reason) {
        return Some(InvalidReason);
      }
      if fault {
        return Some(Fault);
      }
      var key := Print(serial);
      if key !in rows {
        return Some(CertNotFound);
      }
      if rows[key].status == Revoked {
        return None;
      }
      var row := rows[key].(status := Revoked, revokedAt := Some(UnixSeconds(at)), reason := Some(reason));
      ParsePrint(serial);
      ghost var rec := RevokedRecord(Abs()[serial], reason, at);
      ScannedUpdate(rows, row, rec);
      DecodedUpdate(Scanned(rows), rec);
      rows := rows[key := row];
      err := None;
    }

    method ListRevoked(fault: bool) returns (out: Result<seq<CertRecord>, StoreError>)
      requires Valid()
      ensures fault ==> out == Err(Fault)
      ensures !fault ==> out.Ok? && IsListing(out.value, Abs())
    {
      if fault {
        return Err(Fault);
      }
      var listed := ScanRevoked(rows);
      assert Scanned(rows).Keys == rows.Keys;
      VisitedAll(listed, Scanned(rows));
      out := Ok(listed);
    }

    // A counter that does not parse is refused rather than guessed at; a failed
    // transaction hands out nothing and keeps the counter.
    method NextCrlNumber(now: Instant, fault: bool) returns (n: Result<int, StoreError>)
      modifies this`counter
      ensures fault || !old(CounterReadable()) ==> n.Err? && counter == old(counter)
      ensures !fault && old(CounterReadable()) ==>
                && n == Ok(NextNumber(old(LastNumber()), crlNumberFloor, now))
                && CounterReadable() && LastNumber() == Some(n.value)
    {
      if fault {
        return Err(Fault);
      }
      var next: int;
      match counter {
        case None =>
          next := SeedCrlNumber(now);
          if crlNumberFloor.Some? && crlNumberFloor.value > next {
            next := crlNumberFloor.value;
          }
        case Some(stored) =>
          match Parse(stored) {
            case None => return Err(CorruptCounter);
            case Some(current) => next := current + 1;
          }
      }
      ParsePrint(next);
      counter := Some(Print(next));
      n := Ok(next);
    }
  }

  // A run from its i-th operation on is that operation and the run from the next one on.
  lemma FromNext(m: Records, ops: seq<StoreOp>, i: nat)
    requires i < |ops|
    ensures AfterOps(m, ops[i..]) == AfterOps(AfterOp(m, ops[i]), ops[i + 1..])
    ensures DropsNothing(m, ops[i..]) <==> DropsNothingNow(m, ops[i]) && DropsNothing(AfterOp(m, ops[i]), ops[i + 1..])
  {
    assert ops[i..][0] == ops[i] && ops[i..][1..] == ops[i + 1..];
  }

  // What a caller observes of one operation.
  datatype Observation =
    | Error(error: Option<StoreError>)
    | Found(rec: Option<CertRecord>)
    | Listed(records: set<CertRecord>)
    | Number(n: int)

  function Elements<T>(s: seq<T>): set<T> {
    set x | x in s
  }

  // What the two stores make of a record that is already revoked.

  function AfterSQLiteOp(m: Records, op: StoreOp): Records {
    if op.DoRecord? then AfterInsert(m, op.rec) else AfterOp(m, op)
  }

  ghost predicate DropsNothingNow(m: Records, op: StoreOp) {
    op.DoRecord? && op.rec.serial !in m ==> CarriesNoRevocation(op.rec)
  }

  // Every record the operations add carries no revocation.
  ghost predicate DropsNothing(m: Records, ops: seq<StoreOp>)
    decreases ops
  {
    ops == [] || (DropsNothingNow(m, ops[0]) && DropsNothing(AfterOp(m, ops[0]), ops[1..]))
  }

  // A memory store and an SQLite store hold the same map at every point of a run.
  ghost predicate HoldTheSame(memory: Records, sqlite: Records, ops: seq<StoreOp>)
    decreases ops
  {
    memory == sqlite && (ops == [] || HoldTheSame(AfterOp(memory, ops[0]), AfterSQLiteOp(sqlite, ops[0]), ops[1..]))
  }

  lemma SameAfterOneIff(m: Records, op: StoreOp)
    ensures AfterSQLiteOp(m, op) == AfterOp(m, op) <==> DropsNothingNow(m, op)
  {
    if op.DoRecord? && op.rec.serial !in m {
      var rec := op.rec;
      assert AfterInsert(m, rec)[rec.serial] == Inserted(rec) && AfterRecord(m, rec)[rec.serial] == Normalized(rec);
    }
  }

  /** The two stores hold the same throughout a run exactly when no record added in it carries a revocation. */
  lemma {:induction false} HoldTheSameIff(m: Records, ops: seq<StoreOp>)
    ensures HoldTheSame(m, m, ops) <==> DropsNothing(m, ops)
    decreases ops
  {
    if ops == [] {
    } else {
      SameAfterOneIff(m, ops[0]);
      var memory, sqlite, rest := AfterOp(m, ops[0]), AfterSQLiteOp(m, ops[0]), ops[1..];
      assert HoldTheSame(m, m, ops) <==> HoldTheSame(memory, sqlite, rest);
      assert HoldTheSame(memory, sqlite, rest) ==> memory == sqlite;
      HoldTheSameIff(memory, rest);
    }
  }

  predicate RecordsOnlyFreshlyIssued(ops: seq<StoreOp>) {
    forall op <- ops :: op.DoRecord? ==> FreshlyIssued(op.rec)
  }

  /** Newly issued certificates carry none. */
  lemma {:induction false} FreshlyIssuedDropsNothing(m: Records, ops: seq<StoreOp>)
    requires RecordsOnlyFreshlyIssued(ops)
    ensures DropsNothing(m, ops)
    decreases ops
  {
    if ops == [] {
    } else {
      TruncateIsGreatest(ZERO_INSTANT, ZERO_INSTANT);
      assert ops[0] in ops;
      FreshlyIssuedDropsNothing(AfterOp(m, ops[0]), ops[1..]);
    }
  }

  // One operation on each implementation, without faults.

  method OnMemory(m: Memory, op: StoreOp) returns (o: Observation)
    requires m.Valid()
    modifies m
    ensures m.Valid() && m.Abs() == AfterOp(old(m.Abs()), op)
    ensures Observes(o, op, old(m.Abs()), old(m.crlNumber), m.crlNumber)
  {
    match op {
      case DoRecord(rec) =>
        var err := m.Record(rec);
        o := Error(err);
      case DoGet(serial) =>
        var rec := m.Get(serial);
        o := Found(rec);
      case DoRevoke(serial, reason, at) =>
        var err := m.Revoke(serial, reason, at);
        o := Error(err);
      case DoRevoked =>
        var listing := m.ListRevoked();
        o := Listed(Elements(listing));
      case DoNextCrlNumber(now) =>
        var n := m.NextCrlNumber(now);
        o := Number(n);
    }
  }

  method OnSQLite(q: SQLite, op: StoreOp) returns (o: Observation)
    requires q.Valid() && q.CounterReadable() && q.crlNumberFloor == None
    modifies q
    ensures q.Valid() && q.CounterReadable() && q.Abs() == AfterSQLiteOp(old(q.Abs()), op)
    ensures Observes(o, op, old(q.Abs()), old(q.LastNumber()), q.LastNumber())
  {
    match op {
      case DoRecord(rec) =>
        var err := q.Record(rec, false);
        o := Error(err);
      case DoGet(serial) =>
        var rec := q.Get(serial, false);
        o := Found(rec.value);
      case DoRevoke(serial, reason, at) =>
        var err := q.Revoke(serial, reason, at, false);
        o := Error(err);
      case DoRevoked =>
        var listing := q.ListRevoked(false);
        o := Listed(Elements(listing.value));
      case DoNextCrlNumber(now) =>
        var n := q.NextCrlNumber(now, false);
        o := Number(n.value);
    }
  }

  // What op must show a caller of a store holding m and last, and what it makes of last.
  ghost predicate Observes(o: Observation, op: StoreOp, m: Records, last: Option<int>, last': Option<int>) {
    match op
    case DoRecord(rec) => o == Error(RecordError(m, rec)) && last' == last
    case DoGet(serial) => o == Found(if serial in m then Some(m[serial]) else None) && last' == last
    case DoRevoke(serial, reason, at) => o == Error(RevokeError(m, serial, reason)) && last' == last
    case DoRevoked =>
      && o.Listed? && last' == last
      && forall rec :: rec in o.records <==> rec.serial in m && m[rec.serial] == rec && rec.status == Revoked
    case DoNextCrlNumber(now) =>
      var n := NextNumber(last, None, now);
      o == Number(n) && last' == Some(n)
  }

  lemma ObservationsAgree(o: Observation, p: Observation, op: StoreOp, m: Records, last: Option<int>)
    requires exists next :: Observes(o, op, m, last, next)
    requires exists next :: Observes(p, op, m, last, next)
    ensures o == p
  {
    if op.DoRevoked? {
      assert o.records == p.records;
    }
  }

  // One operation on both, from the same map and the same last number: the same answer, and
  // the same map again unless SQLite drops a revocation.
  method OnBoth(m: Memory, q: SQLite, op: StoreOp) returns (o: Observation, p: Observation)
    requires m.Valid() && q.Valid() && q.CounterReadable() && q.crlNumberFloor == None
    requires m.Abs() == q.Abs() && m.crlNumber == q.LastNumber()
    modifies m, q
    ensures m.Valid() && q.Valid() && q.CounterReadable()
    ensures m.Abs() == AfterOp(old(m.Abs()), op) && m.crlNumber == q.LastNumber()
    ensures m.Abs() == q.Abs() <==> DropsNothingNow(old(m.Abs()), op)
    ensures o == p
  {
    SameAfterOneIff(m.Abs(), op);
    ghost var m0, last := m.Abs(), m.crlNumber;
    o := OnMemory(m, op);
    p := OnSQLite(q, op);
    ObservationsAgree(o, p, op, m0, last);
    SameNumber(o, op, m0, last, m.crlNumber, q.LastNumber());
  }

  lemma SameNumber(o: Observation, op: StoreOp, m: Records, last: Option<int>, n: Option<int>, k: Option<int>)
    requires Observes(o, op, m, last, n) && Observes(o, op, m, last, k)
    ensures n == k
  {
  }

  /**
  The two stores are one: over every sequence of operations that adds no record carrying a
  revocation, as none newly issued does, an empty Memory and an empty SQLite without a floor
  give the same observation at every step, and both hold the map the sequence describes.
  */
  method BothStores(ops: seq<StoreOp>) returns (memory: seq<Observation>, sqlite: seq<Observation>, m: Memory, q: SQLite)
    requires DropsNothing(map[], ops)
    ensures memory == sqlite && |memory| == |ops|
    ensures m.Valid() && q.Valid() && m.Abs() == q.Abs() == AfterOps(map[], ops)
  {
    m := new Memory();
    q := new SQLite(None);
    memory, sqlite := [], [];
    for i := 0 to |ops|
      invariant memory == sqlite && |memory| == i
      invariant fresh(m) && fresh(q) && m.Valid() && q.Valid() && q.CounterReadable()
      invariant m.Abs() == q.Abs() && AfterOps(m.Abs(), ops[i..]) == AfterOps(map[], ops)
      invariant m.crlNumber == q.LastNumber() && q.crlNumberFloor == None
      invariant DropsNothing(m.Abs(), ops[i..])
    {
      FromNext(m.Abs(), ops, i);
      var o, p := OnBoth(m, q, ops[i]);
      memory, sqlite := memory + [o], sqlite + [p];
    }
    assert ops[|ops|..] == [];
  }
}
