// What is published from the database: the CRL of ca_main (apps/ca.c) and the answers of the
// OCSP responder (apps/ocsp.c).
module Publish {
  import opened Prelude
  import opened Hex
  import opened RevInfo
  import opened Time
  import opened CaDatabase
  import opened CaRuns

  // -------------------------------------------------------------------------
  // The CRL.

  // A CRL entry: a reason of NO_STATUS stands for no reason code extension.
  datatype Entry = Entry(serial: int, time: string, reason: int, invalidity: Option<string>, hold: Option<string>)
  {
    predicate HasExtension()
    {
      reason != NO_STATUS || invalidity.Some? || hold.Some?
    }
  }

  datatype Crl = Crl(version: nat, entries: seq<Entry>, number: Option<int>, sectionExts: bool)

  // make_revoked: the entry, and whether it needs version 2.
  function MakeRevoked(env: Env, serial: int, rev: string): (r: Option<(Entry, bool)>)
  {
    var (ok, info) := Unpack(env, rev);
    if !ok then None
    else Some((Entry(serial, info.time, info.reason, info.compromised, info.hold), info.reason != NO_STATUS))
  }

  function EntryOf(env: Env, row: Row): (r: Option<(Entry, bool)>)
  {
    match HexToBn(row.serial)
    case None => None
    case Some(n) => MakeRevoked(env, n, row.rev)
  }

  // The entries of the revoked rows, in order, and whether one of them needs version 2.
  function Entries(env: Env, rows: seq<Row>): (r: Option<(seq<Entry>, bool)>)
  {
    if rows == [] then Some(([], false))
    else
      var tail := Entries(env, rows[1..]);
      if rows[0].Type() != TYPE_REV then tail
      else
        var e := EntryOf(env, rows[0]);
        if e.None? || tail.None? then None
        else Some(([e.value.0] + tail.value.0, e.value.1 || tail.value.1))
  }

  // `number` is the CRL number, if there is a CRL number file, and `section` whether a section
  // with CRL extensions is configured.
  function GenCrl(env: Env, rows: seq<Row>, number: Option<int>, section: bool): (r: Option<Crl>)
  {
    match Entries(env, rows)
    case None => None
    case Some((entries, v2)) => Some(Crl(if section || v2 || number.Some? then 2 else 1, entries, number, section))
  }

  // The loop of ca_main.
  method MakeCrl(env: Env, rows: seq<Row>, number: Option<int>, section: bool) returns (crl: Option<Crl>)
    ensures crl == GenCrl(env, rows, number, section)
  {
    hide EntryOf;
    var entries: seq<Entry>, v2 := [], false;
    assert rows[0..] == rows;
    PrefixedNothing(Entries(env, rows));
    for i := 0 to |rows|
      invariant Entries(env, rows) == Prefixed(entries, v2, Entries(env, rows[i..]))
    {
      assert rows[i..][1..] == rows[i + 1..];
      if rows[i].Type() == TYPE_REV {
        var e := EntryOf(env, rows[i]);
        if e.None? { return None; }
        ghost var tail := Entries(env, rows[i + 1..]);
        assert tail.Some? ==> entries + ([e.value.0] + tail.value.0) == entries + [e.value.0] + tail.value.0;
        entries := entries + [e.value.0];
        if e.value.1 { v2 := true; }
      }
    }
    assert entries + [] == entries;
    if number.Some? { v2 := true; }
    crl := Some(Crl(if section || v2 then 2 else 1, entries, number, section));
  }

  function Prefixed(entries: seq<Entry>, v2: bool, r: Option<(seq<Entry>, bool)>): Option<(seq<Entry>, bool)>
  {
    if r.None? then None else Some((entries + r.value.0, v2 || r.value.1))
  }

  lemma PrefixedNothing(r: Option<(seq<Entry>, bool)>)
    ensures Prefixed([], false, r) == r
  {
    if r.Some? { assert [] + r.value.0 == r.value.0; }
  }

  // There is no CRL exactly if a revoked row has a serial that is no number or a revocation that cannot be unpacked.
  lemma NoCrlIff(env: Env, rows: seq<Row>, number: Option<int>, section: bool)
    ensures GenCrl(env, rows, number, section).None? <==> exists i :: 0 <= i < |rows| && Unlistable(env, rows[i])
  {
    NoEntriesIff(env, rows);
  }

  predicate Unlistable(env: Env, row: Row)
  {
    row.typ != "" && row.typ[0] == 'R' && (HexToBn(row.serial).None? || !Unpack(env, row.rev).0)
  }

  lemma {:induction false} NoEntriesIff(env: Env, rows: seq<Row>)
    ensures Entries(env, rows).None? <==> exists i :: 0 <= i < |rows| && Unlistable(env, rows[i])
  {
    hide HexToBn, Unpack;
    if rows != [] {
      NoEntriesIff(env, rows[1..]);
      assert forall i :: 0 < i < |rows| ==> rows[i] == rows[1..][i - 1];
      assert Entries(env, rows).None? <==> Unlistable(env, rows[0]) || Entries(env, rows[1..]).None?;
    }
  }

  // A version 1 CRL carries no entry extension, no CRL number and no other extension, as
  // section 5.1.2.1 of RFC 5280 requires, and every reason code is one of section 5.3.1.
  lemma CrlVersionAndReasons(env: Env, rows: seq<Row>, number: Option<int>, section: bool)
    requires GenCrl(env, rows, number, section).Some?
    ensures var crl := GenCrl(env, rows, number, section).value;
            && (crl.version == 1 ==> crl.number.None? && !crl.sectionExts)
            && (crl.version == 1 ==> forall e :: e in crl.entries ==> !e.HasExtension())
            && (forall e :: e in crl.entries ==> e.reason == NO_STATUS || 0 <= e.reason <= 6 || e.reason == 8)
  {
    EntriesShape(env, rows);
  }

  lemma {:induction false} EntriesShape(env: Env, rows: seq<Row>)
    requires Entries(env, rows).Some?
    ensures var (entries, v2) := Entries(env, rows).value;
            forall e :: e in entries ==>
              && (e.HasExtension() ==> v2)
              && (e.reason == NO_STATUS || 0 <= e.reason <= 6 || e.reason == 8)
  {
    hide Unpack;
    if rows != [] {
      EntriesShape(env, rows[1..]);
      UnpackShape(env, rows[0].rev);
    }
  }

  // -------------------------------------------------------------------------
  // The OCSP responder.

  // A certificate identifier: whether its digest is known, the issuer it names, and the serial.
  datatype CertId = CertId(digestKnown: bool, issuer: nat, serial: int)

  datatype Status =
    | Unknown
    | Good
    | Revoked(time: string, reason: int, invalidity: Option<string>, hold: Option<string>)

  // A single response, with the serial number in its identifier.
  datatype Answer = Answer(serial: int, status: Status)

  datatype Response = MalformedRequest | InternalError | Successful(answers: seq<Answer>)

  // lookup_serial
  function LookupSerial(db: Db, serial: int): (r: Option<nat>)
  {
    db.FindSerial(SerialText(serial))
  }

  // The status of a serial of a known issuer: None for a row that gets no answer, and a failure
  // when the revocation time cannot be encoded.
  datatype Lookup = Fails | NoAnswer | Says(status: Status)

  function StatusOf(env: Env, db: Db, serial: int): (r: Lookup)
  {
    match LookupSerial(db, serial)
    case None => Says(Unknown)
    case Some(i) =>
      if i >= |db.rows| then Says(Unknown)
      else if db.rows[i].Type() == TYPE_VAL then Says(Good)
      else if db.rows[i].Type() == TYPE_REV then
        var info := Unpack(env, db.rows[i].rev).1;
        if !UtcTimeOk(info.time) then Fails
        else Says(Revoked(info.time, info.reason, info.compromised, if info.compromised.Some? then None else info.hold))
      else NoAnswer
  }

  // With -rcid, the identifier of an answer is made anew from the issuer, without a serial.
  function AnswerSerial(rcid: bool, found: bool, id: CertId): int
  {
    if rcid && found then 0 else id.serial
  }

  function Respond(env: Env, db: Db, ca: seq<nat>, rcid: bool, ids: seq<CertId>): (r: Response)
  {
    if ids == [] then MalformedRequest else Answers(env, db, ca, rcid, ids, [])
  }

  function Answers(env: Env, db: Db, ca: seq<nat>, rcid: bool, ids: seq<CertId>, done: seq<Answer>): (r: Response)
    decreases |ids|
  {
    if ids == [] then Successful(done)
    else if !ids[0].digestKnown then InternalError
    else
      var found := ids[0].issuer in ca;
      var look := if found then StatusOf(env, db, ids[0].serial) else Says(Unknown);
      match look
      case Fails => InternalError
      case NoAnswer => Answers(env, db, ca, rcid, ids[1..], done)
      case Says(status) =>
        Answers(env, db, ca, rcid, ids[1..], done + [Answer(AnswerSerial(rcid, found, ids[0]), status)])
  }

  // make_ocsp_response, up to signing.
  method MakeOcspResponse(env: Env, db: Db, ca: seq<nat>, rcid: bool, ids: seq<CertId>) returns (r: Response)
    requires db.Indexed()
    ensures r == Respond(env, db, ca, rcid, ids)
  {
    hide Unpack, UtcTimeOk, SerialText, Key;
    if |ids| == 0 { return MalformedRequest; }
    var bs: seq<Answer> := [];
    ghost var goal := Answers(env, db, ca, rcid, ids, []);
    for i := 0 to |ids|
      invariant Answers(env, db, ca, rcid, ids[i..], bs) == goal
    {
      var id := ids[i];
      assert ids[i..][1..] == ids[i + 1..];
      if !id.digestKnown { return InternalError; }
      var found, jj := false, 0;
      while jj < |ca| && !found
        invariant 0 <= jj <= |ca| && (found ==> id.issuer in ca) && (!found ==> id.issuer !in ca[..jj])
        decreases |ca| - jj
      {
        if ca[jj] == id.issuer { found := true; }
        jj := jj + 1;
      }
      assert ca[..|ca|] == ca;
      assert found <==> id.issuer in ca;
      var inf := LookupSerial(db, id.serial);
      var cid := if rcid && found then 0 else id.serial;
      if !found || inf.None? {
        bs := bs + [Answer(cid, Unknown)];
      } else if db.rows[inf.value].Type() == TYPE_VAL {
        bs := bs + [Answer(cid, Good)];
      } else if db.rows[inf.value].Type() == TYPE_REV {
        var info := Unpack(env, db.rows[inf.value].rev).1;
        if !UtcTimeOk(info.time) { return InternalError; }
        var single := Revoked(info.time, info.reason, None, None);
        if info.compromised.Some? {
          single := single.(invalidity := info.compromised);
        } else if info.hold.Some? {
          single := single.(hold := info.hold);
        }
        bs := bs + [Answer(cid, single)];
      }
    }
    r := Successful(bs);
  }

  // -------------------------------------------------------------------------
  // The two publications agree.

  function AsEntry(serial: int, st: Status): Entry
    requires st.Revoked?
  {
    Entry(serial, st.time, st.reason, st.invalidity, st.hold)
  }

  // The entry of a revoked row that passed the load check.
  function EntryFor(env: Env, row: Row): (e: Entry)
    requires RowOk(env, row) && row.Type() == TYPE_REV
    ensures EntryOf(env, row).Some? && e == EntryOf(env, row).value.0 && e.serial == SerialValue(row.serial)
  {
    SerialOkParses(row.serial);
    EntryOf(env, row).value.0
  }

  // The number of revoked rows before row i, which is the position of its entry.
  function Position(rows: seq<Row>, i: nat): (p: nat)
    requires i <= |rows|
  {
    if i == 0 then 0 else (if rows[0].Type() == TYPE_REV then 1 else 0) + Position(rows[1..], i - 1)
  }

  lemma {:induction false} EntryAt(env: Env, rows: seq<Row>, i: nat)
    requires RowsOk(env, rows) && i < |rows| && rows[i].Type() == TYPE_REV
    ensures Entries(env, rows).Some? && Position(rows, i) < |Entries(env, rows).value.0|
    ensures Entries(env, rows).value.0[Position(rows, i)] == EntryFor(env, rows[i])
    decreases |rows|
  {
    hide EntryOf, RowOk;
    RowsOkTail(env, rows);
    EntriesSome(env, rows);
    if i > 0 { EntryAt(env, rows[1..], i - 1); }
  }

  lemma RowsOkTail(env: Env, rows: seq<Row>)
    requires RowsOk(env, rows) && rows != []
    ensures RowsOk(env, rows[1..]) && RowOk(env, rows[0])
  {
  }

  lemma {:induction false} EntriesSome(env: Env, rows: seq<Row>)
    requires RowsOk(env, rows)
    ensures Entries(env, rows).Some?
  {
    hide EntryOf, RowOk;
    if rows != [] {
      RowsOkTail(env, rows);
      EntriesSome(env, rows[1..]);
      if rows[0].Type() == TYPE_REV { var e := EntryFor(env, rows[0]); }
    }
  }

  // The row that an entry comes from.
  lemma {:induction false} RowOfEntry(env: Env, rows: seq<Row>, p: nat) returns (i: nat)
    requires RowsOk(env, rows) && Entries(env, rows).Some? && p < |Entries(env, rows).value.0|
    ensures i < |rows| && rows[i].Type() == TYPE_REV && Position(rows, i) == p
    ensures RowOk(env, rows[i]) && EntryFor(env, rows[i]) == Entries(env, rows).value.0[p]
    decreases |rows|
  {
    hide EntryOf, RowOk;
    RowsOkTail(env, rows);
    EntriesSome(env, rows[1..]);
    if rows[0].Type() == TYPE_REV && p == 0 {
      i := 0;
      EntryAt(env, rows, 0);
    } else {
      var q := if rows[0].Type() == TYPE_REV then p - 1 else p;
      i := RowOfEntry(env, rows[1..], q);
      i := i + 1;
    }
  }

  lemma {:induction false} PositionsDiffer(rows: seq<Row>, i: nat, j: nat)
    requires i < j < |rows| && rows[i].Type() == TYPE_REV
    ensures Position(rows, i) < Position(rows, j)
  {
    if i > 0 { PositionsDiffer(rows[1..], i - 1, j - 1); }
  }

  // What the CRL of a database that passed the load check is: one entry for each revoked row, in order, with its number
  // and what its revocation text says; the CRL number and the extensions that were asked for; and version 2 exactly if
  // there is an extension of any kind.
  lemma CrlIsOfRevokedRows(env: Env, rows: seq<Row>, number: Option<int>, section: bool)
    requires RowsOk(env, rows)
    ensures GenCrl(env, rows, number, section).Some?
    ensures var crl := GenCrl(env, rows, number, section).value;
            && crl.number == number && crl.sectionExts == section
            && |crl.entries| == Position(rows, |rows|)
            && (forall i :: 0 <= i < |rows| && rows[i].Type() == TYPE_REV ==>
                  && 0 <= Position(rows, i) < |crl.entries|
                  && var info := Unpack(env, rows[i].rev).1;
                     crl.entries[Position(rows, i)] ==
                     Entry(SerialValue(rows[i].serial), info.time, info.reason, info.compromised, info.hold))
            && crl.version ==
               if section || number.Some? || exists e :: e in crl.entries && e.HasExtension() then 2 else 1
  {
    EntriesSome(env, rows);
    EntriesCount(env, rows);
    EntriesVersion(env, rows);
    hide Entries, EntryOf, Position, SerialValue, Unpack;
    forall i | 0 <= i < |rows| && rows[i].Type() == TYPE_REV
      ensures 0 <= Position(rows, i) < |Entries(env, rows).value.0|
      ensures var info := Unpack(env, rows[i].rev).1;
              Entries(env, rows).value.0[Position(rows, i)] ==
              Entry(SerialValue(rows[i].serial), info.time, info.reason, info.compromised, info.hold)
    {
      EntryAt(env, rows, i);
      assert RowOk(env, rows[i]);
      EntryFields(env, rows[i]);
    }
  }

  lemma EntryFields(env: Env, row: Row)
    requires RowOk(env, row) && row.Type() == TYPE_REV
    ensures var info := Unpack(env, row.rev).1;
            EntryFor(env, row) ==
            Entry(SerialValue(row.serial), info.time, info.reason, info.compromised, info.hold)
  {
    hide Unpack, SerialValue, SerialOk, HexToBn;
  }

  lemma {:induction false} EntriesCount(env: Env, rows: seq<Row>)
    requires Entries(env, rows).Some?
    ensures |Entries(env, rows).value.0| == Position(rows, |rows|)
  {
    hide EntryOf;
    if rows != [] { EntriesCount(env, rows[1..]); }
  }

  // The entries need version 2 exactly if one of them has an extension.
  lemma {:induction false} EntriesVersion(env: Env, rows: seq<Row>)
    requires Entries(env, rows).Some?
    ensures var (entries, v2) := Entries(env, rows).value; v2 <==> exists e :: e in entries && e.HasExtension()
  {
    hide Unpack;
    if rows != [] {
      EntriesVersion(env, rows[1..]);
      UnpackShape(env, rows[0].rev);
      if rows[0].Type() == TYPE_REV {
        var e, tail := EntryOf(env, rows[0]).value, Entries(env, rows[1..]).value;
        assert e.1 <==> e.0.HasExtension();
        hide EntryOf;
        assert forall x :: x in [e.0] + tail.0 <==> x == e.0 || x in tail.0;
      }
    }
  }

  // A serial is on the CRL with some time, reason, invalidity date and hold instruction exactly
  // when the responder says that it is revoked, with the same ones.
  ghost predicate Agrees(env: Env, db: Db, crl: seq<Entry>)
  {
    forall n: int, st: Status :: st.Revoked? ==> (AsEntry(n, st) in crl <==> StatusOf(env, db, n) == Says(st))
  }

  // No serial is on the CRL twice.
  ghost predicate ListedOnce(entries: seq<Entry>)
  {
    forall p, q :: 0 <= p < q < |entries| ==> entries[p].serial != entries[q].serial
  }

  // Every revoked row has the text of its serial that the index looks for.
  ghost predicate RevokedCanonical(rows: seq<Row>)
  {
    forall i :: 0 <= i < |rows| && rows[i].Type() == TYPE_REV ==> SerialOk(rows[i].serial) && Canonical(rows[i].serial)
  }

  // What the responder says of a row is what its entry says: never both a hold and a
  // compromise time, so its choice between the two loses nothing.
  lemma StatusOfRow(env: Env, db: Db, n: int, i: nat)
    requires db.Indexed() && RowsOk(env, db.rows) && LookupSerial(db, n) == Some(i)
    requires db.rows[i].Type() == TYPE_REV
    ensures RowOk(env, db.rows[i]) && EntryFor(env, db.rows[i]).serial == n
    ensures StatusOf(env, db, n).Says? && StatusOf(env, db, n).status.Revoked?
    ensures AsEntry(n, StatusOf(env, db, n).status) == EntryFor(env, db.rows[i])
  {
    hide Unpack, UtcTimeOk, SerialText, Key, SerialOk, HexToBn, SerialValue;
    UnpackShape(env, db.rows[i].rev);
    assert RowOk(env, db.rows[i]);
    KeyGivesValue(db.rows[i].serial, n);
  }

  lemma LookupCanonical(db: Db, i: nat)
    requires db.Indexed() && i < |db.rows| && SerialOk(db.rows[i].serial)
    ensures LookupSerial(db, SerialValue(db.rows[i].serial)) == Some(i) <==> Canonical(db.rows[i].serial)
  {
    CanonicalIsFound(db.rows[i].serial);
    hide SerialText, Key, SerialOk, SerialValue, Canonical;
  }

  // The responder never reports a revocation that is not on the CRL.
  lemma RespondedIsListed(env: Env, db: Db, n: int, st: Status)
    requires db.Indexed() && RowsOk(env, db.rows) && st.Revoked? && StatusOf(env, db, n) == Says(st)
    ensures Entries(env, db.rows).Some? && AsEntry(n, st) in Entries(env, db.rows).value.0
  {
    hide Unpack, Entries, EntryOf;
    var i := LookupSerial(db, n).value;
    StatusOfRow(env, db, n, i);
    EntryAt(env, db.rows, i);
  }

  // The publications agree and list no serial twice, for a database that passed the load check,
  // exactly when every revoked row is canonical.
  lemma AgreeExactlyWhenCanonical(env: Env, db: Db, number: Option<int>, section: bool)
    requires db.Indexed() && RowsOk(env, db.rows)
    ensures GenCrl(env, db.rows, number, section).Some?
    ensures var crl := GenCrl(env, db.rows, number, section).value.entries;
            Agrees(env, db, crl) && ListedOnce(crl) <==> RevokedCanonical(db.rows)
  {
    EntriesSome(env, db.rows);
    if RevokedCanonical(db.rows) {
      CanonicalAgrees(env, db);
      CanonicalListedOnce(env, db);
    }
    if Agrees(env, db, Entries(env, db.rows).value.0) && ListedOnce(Entries(env, db.rows).value.0) {
      AgreeingIsCanonical(env, db);
    }
  }

  lemma CanonicalAgrees(env: Env, db: Db)
    requires db.Indexed() && RowsOk(env, db.rows) && RevokedCanonical(db.rows)
    ensures Entries(env, db.rows).Some? && Agrees(env, db, Entries(env, db.rows).value.0)
  {
    hide Db.Indexed, StatusOf, EntryOf, Entries, Canonical, SerialOk, SerialValue, LookupSerial;
    EntriesSome(env, db.rows);
    forall n: int, st: Status | st.Revoked?
      ensures AsEntry(n, st) in Entries(env, db.rows).value.0 <==> StatusOf(env, db, n) == Says(st)
    {
      if StatusOf(env, db, n) == Says(st) { RespondedIsListed(env, db, n, st); }
      if AsEntry(n, st) in Entries(env, db.rows).value.0 {
        var p :| 0 <= p < |Entries(env, db.rows).value.0| && Entries(env, db.rows).value.0[p] == AsEntry(n, st);
        var i := RowOfEntry(env, db.rows, p);
        LookupCanonical(db, i);
        StatusOfRow(env, db, n, i);
      }
    }
  }

  lemma CanonicalListedOnce(env: Env, db: Db)
    requires db.Indexed() && RowsOk(env, db.rows) && RevokedCanonical(db.rows)
    ensures Entries(env, db.rows).Some? && ListedOnce(Entries(env, db.rows).value.0)
  {
    hide Db.Indexed, EntryOf, Entries, Canonical, SerialOk, SerialValue, LookupSerial;
    EntriesSome(env, db.rows);
    var entries := Entries(env, db.rows).value.0;
    forall p, q | 0 <= p < q < |entries| ensures entries[p].serial != entries[q].serial {
      var i := RowOfEntry(env, db.rows, p);
      var j := RowOfEntry(env, db.rows, q);
      LookupCanonical(db, i);
      LookupCanonical(db, j);
    }
  }

  lemma AgreeingIsCanonical(env: Env, db: Db)
    requires db.Indexed() && RowsOk(env, db.rows) && Entries(env, db.rows).Some?
    requires Agrees(env, db, Entries(env, db.rows).value.0) && ListedOnce(Entries(env, db.rows).value.0)
    ensures RevokedCanonical(db.rows)
  {
    forall i | 0 <= i < |db.rows| && db.rows[i].Type() == TYPE_REV
      ensures SerialOk(db.rows[i].serial) && Canonical(db.rows[i].serial)
    {
      AgreeingRowIsCanonical(env, db, i);
    }
  }

  lemma AgreeingRowIsCanonical(env: Env, db: Db, i: nat)
    requires db.Indexed() && RowsOk(env, db.rows) && Entries(env, db.rows).Some?
    requires Agrees(env, db, Entries(env, db.rows).value.0) && ListedOnce(Entries(env, db.rows).value.0)
    requires i < |db.rows| && db.rows[i].Type() == TYPE_REV
    ensures SerialOk(db.rows[i].serial) && Canonical(db.rows[i].serial)
  {
    hide EntryOf, Entries, Canonical, SerialOk, SerialValue, Unpack, SerialText, Key;
    var rows := db.rows;
    assert RowOk(env, rows[i]);
    EntryAt(env, rows, i);
    var e := EntryFor(env, rows[i]);
    var st := Revoked(e.time, e.reason, e.invalidity, e.hold);
    assert AsEntry(e.serial, st) == e;
    assert StatusOf(env, db, e.serial) == Says(st);
    var j := LookupSerial(db, e.serial).value;
    StatusOfRow(env, db, e.serial, j);
    EntryAt(env, rows, j);
    if i < j { PositionsDiffer(rows, i, j); }
    if j < i { PositionsDiffer(rows, j, i); }
    assert i == j;
    LookupCanonical(db, i);
  }

  // Every database that the tool itself built, at any moment of any run, is published consistently whenever it can be
  // loaded again.
  lemma EveryRunAgrees(env: Env, unique: bool, serial: Option<int>, steps: seq<Step>, number: Option<int>,
                       section: bool)
    requires StepsOk(env, steps)
    ensures var db := Load(env, Save(Run(env, unique, NewCa(serial), steps).rows), unique);
            db.Some? ==>
              var crl := GenCrl(env, db.value.rows, number, section);
              crl.Some? && Agrees(env, db.value, crl.value.entries) && ListedOnce(crl.value.entries)
  {
    NewCaOk(env, unique, serial);
    RunInv(env, unique, NewCa(serial), steps);
    var rows := Run(env, unique, NewCa(serial), steps).rows;
    hide Run, Load, Agrees, ListedOnce, GenCrl, Save, StepOk;
    LoadedOk(env, unique, rows);
    var db := Load(env, Save(rows), unique);
    if db.Some? {
      GoodIsCanonical(rows);
      LoadedRowsOk(env, Save(rows), unique);
      AgreeExactlyWhenCanonical(env, db.value, number, section);
    }
  }

  lemma LoadedRowsOk(env: Env, disk: string, unique: bool)
    requires Load(env, disk, unique).Some?
    ensures RowsOk(env, Load(env, disk, unique).value.rows)
  {
    hide RowsOk;
  }

  lemma GoodIsCanonical(rows: seq<Row>)
    requires AllGood(rows)
    ensures RevokedCanonical(rows)
  {
    forall i | 0 <= i < |rows| ensures SerialOk(rows[i].serial) && Canonical(rows[i].serial) {
      assert GoodRow(rows[i]);
      SerialTextCanonical(SerialValue(rows[i].serial));
    }
  }

  lemma LowerCaseTen()
    ensures SerialValue("0a") == 10 && !Canonical("0a")
  {
    AllHexRun("0a");
    assert "0a"[..2] == "0a" && "0a"[..1] == "0" && "0"[..0] == "";
    assert Value("0") == 0;
    assert !IsUpperHex("0a"[1]);
  }

  // A row that was entered by hand with a lower-case serial: the CRL lists number 10, and the
  // responder does not know it.
  lemma LowerCaseSerialDisagrees(env: Env, row: Row, number: Option<int>, section: bool)
    requires RowOk(env, row) && row.Type() == TYPE_REV && row.serial == "0a"
    ensures var db, crl := IndexOf([row], false), GenCrl(env, [row], number, section);
            && db.Indexed() && crl.Some? && |crl.value.entries| == 1 && crl.value.entries[0].serial == 10
            && StatusOf(env, db, 10) == Says(Unknown)
  {
    var db := IndexOf([row], false);
    IndexOfIndexed([row], false);
    EntryAt(env, [row], 0);
    assert Entries(env, [row][1..]) == Some(([], false));
    LowerCaseTen();
    hide SerialValue, Canonical;
    LookupCanonical(db, 0);
  }

  // -------------------------------------------------------------------------
  // What the responder says.

  // Row i is the one that the index finds for a serial.
  predicate IsRowOf(rows: seq<Row>, n: int, i: int)
  {
    0 <= i < |rows| && Key(rows[i].serial) == Key(SerialText(n))
  }

  ghost predicate HasRow(rows: seq<Row>, n: int, types: set<char>)
  {
    exists i :: IsRowOf(rows, n, i) && rows[i].Type() in types
  }

  // The truth about a serial of a known issuer: not known, good, revoked as its row says, nothing that is told, or a
  // revocation at a time that cannot be.
  ghost predicate IsTrue(env: Env, rows: seq<Row>, n: int, look: Lookup)
  {
    match look
    case Fails =>
      exists i :: IsRowOf(rows, n, i) && rows[i].Type() == TYPE_REV && !UtcTimeOk(Unpack(env, rows[i].rev).1.time)
    case NoAnswer => exists i :: IsRowOf(rows, n, i) && rows[i].Type() != TYPE_VAL && rows[i].Type() != TYPE_REV
    case Says(Unknown) => forall i :: !IsRowOf(rows, n, i)
    case Says(Good) => HasRow(rows, n, {TYPE_VAL})
    case Says(Revoked(time, reason, invalidity, hold)) =>
      exists i :: && IsRowOf(rows, n, i) && rows[i].Type() == TYPE_REV
                  && var info := Unpack(env, rows[i].rev).1;
                     && UtcTimeOk(info.time) && time == info.time && reason == info.reason
                     && invalidity == info.compromised && hold == info.hold
  }

  // The responder, which checks less than the authority when it loads a database, says what is true of any, and nothing
  // else is.
  lemma StatusIffTrue(env: Env, db: Db, n: int, look: Lookup)
    requires db.Indexed()
    ensures StatusOf(env, db, n) == look <==> IsTrue(env, db.rows, n, look)
  {
    hide Unpack, UtcTimeOk, SerialText, Key, SerialOk;
    var found := LookupSerial(db, n);
    assert forall i :: IsRowOf(db.rows, n, i) ==> found == Some(i);
    if found.Some? {
      assert IsRowOf(db.rows, n, found.value);
      UnpackShape(env, db.rows[found.value].rev);
    }
  }

  // An identifier that gets no answer: its issuer is known, and its row is neither valid nor revoked.
  ghost predicate Untold(env: Env, db: Db, ca: seq<nat>, id: CertId)
  {
    id.issuer in ca && IsTrue(env, db.rows, id.serial, NoAnswer)
  }

  // The answer to an identifier: the truth, if its issuer is known, under its serial, which -rcid forgets.
  ghost predicate Tells(env: Env, db: Db, ca: seq<nat>, rcid: bool, id: CertId, a: Answer)
  {
    && a.serial == (if rcid && id.issuer in ca then 0 else id.serial)
    && if id.issuer in ca then IsTrue(env, db.rows, id.serial, Says(a.status)) else a.status == Unknown
  }

  ghost predicate TellsAt(env: Env, db: Db, ca: seq<nat>, rcid: bool, ids: seq<CertId>, a: Answer, place: nat)
  {
    place < |ids| && Tells(env, db, ca, rcid, ids[place], a)
  }

  predicate Rising(places: seq<nat>)
  {
    forall i, k :: 0 <= i < k < |places| ==> places[i] < places[k]
  }

  ghost predicate AtPlaces(env: Env, db: Db, ca: seq<nat>, ids: seq<CertId>, places: seq<nat>)
  {
    forall j :: 0 <= j < |ids| ==> (j in places <==> !Untold(env, db, ca, ids[j]))
  }

  // The answers belong to the identifiers at increasing places, and those in between get none.
  ghost predicate TellsAll(env: Env, db: Db, ca: seq<nat>, rcid: bool, ids: seq<CertId>, answers: seq<Answer>,
                           places: seq<nat>)
  {
    && |places| == |answers| && Rising(places) && AtPlaces(env, db, ca, ids, places)
    && forall k :: 0 <= k < |places| ==> TellsAt(env, db, ca, rcid, ids, answers[k], places[k])
  }

  lemma {:induction false} AnswersTell(
    env: Env, db: Db, ca: seq<nat>, rcid: bool, ids: seq<CertId>, done: seq<Answer>) returns (places: seq<nat>)
    requires db.Indexed() && Answers(env, db, ca, rcid, ids, done).Successful?
    ensures var answers := Answers(env, db, ca, rcid, ids, done).answers;
            && |done| <= |answers| && answers[..|done|] == done
            && TellsAll(env, db, ca, rcid, ids, answers[|done|..], places)
    decreases |ids|
  {
    hide StatusOf, IsTrue, Db.Indexed;
    if ids == [] {
      places := [];
    } else {
      var id, rest := ids[0], ids[1..];
      var found := id.issuer in ca;
      var look := if found then StatusOf(env, db, id.serial) else Says(Unknown);
      StatusIffTrue(env, db, id.serial, look);
      StatusIffTrue(env, db, id.serial, NoAnswer);
      var answers := Answers(env, db, ca, rcid, ids, done).answers;
      if look.NoAnswer? {
        var more := AnswersTell(env, db, ca, rcid, rest, done);
        places := Shifted(more);
        SkipsFirst(env, db, ca, rcid, ids, answers[|done|..], more);
      } else {
        var a := Answer(AnswerSerial(rcid, found, id), look.status);
        var more := AnswersTell(env, db, ca, rcid, rest, done + [a]);
        places := [0] + Shifted(more);
        assert answers[..|done| + 1] == done + [a];
        assert answers[|done|] == (done + [a])[|done|] && answers[..|done|] == (done + [a])[..|done|];
        assert answers[|done|..] == [a] + answers[|done| + 1..];
        TakesFirst(env, db, ca, rcid, ids, a, answers[|done| + 1..], more);
      }
    }
  }

  function Shifted(places: seq<nat>): (r: seq<nat>)
    ensures |r| == |places| && forall k :: 0 <= k < |r| ==> r[k] == places[k] + 1
  {
    seq(|places|, k requires 0 <= k < |places| => places[k] + 1)
  }

  lemma ShiftedIn(places: seq<nat>, j: nat)
    ensures j in Shifted(places) <==> j > 0 && j - 1 in places
  {
    if j in Shifted(places) {
      var k :| 0 <= k < |places| && Shifted(places)[k] == j;
      assert places[k] == j - 1;
    }
    if j > 0 && j - 1 in places {
      var k :| 0 <= k < |places| && places[k] == j - 1;
      assert Shifted(places)[k] == j;
    }
  }

  lemma ShiftedPlaces(env: Env, db: Db, ca: seq<nat>, ids: seq<CertId>, more: seq<nat>)
    requires ids != [] && AtPlaces(env, db, ca, ids[1..], more)
    ensures Untold(env, db, ca, ids[0]) ==> AtPlaces(env, db, ca, ids, Shifted(more))
    ensures !Untold(env, db, ca, ids[0]) ==> AtPlaces(env, db, ca, ids, [0] + Shifted(more))
  {
    hide Untold, Shifted;
    forall j: nat | j < |ids|
      ensures j in Shifted(more) <==> j > 0 && !Untold(env, db, ca, ids[j])
    {
      ShiftedIn(more, j);
      assert j > 0 ==> ids[j] == ids[1..][j - 1];
    }
  }

  lemma ShiftedRises(more: seq<nat>)
    requires Rising(more)
    ensures Rising(Shifted(more)) && Rising([0] + Shifted(more))
  {
    hide Shifted;
  }

  lemma ShiftedTells(env: Env, db: Db, ca: seq<nat>, rcid: bool, ids: seq<CertId>, a: Answer, place: nat)
    requires ids != [] && TellsAt(env, db, ca, rcid, ids[1..], a, place)
    ensures TellsAt(env, db, ca, rcid, ids, a, place + 1)
  {
    hide Tells;
    assert ids[place + 1] == ids[1..][place];
  }

  lemma SkipsFirst(env: Env, db: Db, ca: seq<nat>, rcid: bool, ids: seq<CertId>, answers: seq<Answer>, more: seq<nat>)
    requires ids != [] && Untold(env, db, ca, ids[0]) && TellsAll(env, db, ca, rcid, ids[1..], answers, more)
    ensures TellsAll(env, db, ca, rcid, ids, answers, Shifted(more))
  {
    hide Untold, TellsAt, Shifted, Rising, AtPlaces;
    ShiftedPlaces(env, db, ca, ids, more);
    ShiftedRises(more);
    forall k | 0 <= k < |more| ensures TellsAt(env, db, ca, rcid, ids, answers[k], Shifted(more)[k]) {
      ShiftedTells(env, db, ca, rcid, ids, answers[k], more[k]);
    }
  }

  lemma TakesFirst(env: Env, db: Db, ca: seq<nat>, rcid: bool, ids: seq<CertId>, a: Answer, answers: seq<Answer>,
                   more: seq<nat>)
    requires ids != [] && !Untold(env, db, ca, ids[0]) && TellsAt(env, db, ca, rcid, ids, a, 0)
    requires TellsAll(env, db, ca, rcid, ids[1..], answers, more)
    ensures TellsAll(env, db, ca, rcid, ids, [a] + answers, [0] + Shifted(more))
  {
    hide Untold, TellsAt, Shifted, Rising, AtPlaces;
    ShiftedPlaces(env, db, ca, ids, more);
    ShiftedRises(more);
    var places := [0] + Shifted(more);
    forall k | 0 <= k < |places| ensures TellsAt(env, db, ca, rcid, ids, ([a] + answers)[k], places[k]) {
      if k > 0 {
        assert places[k] == more[k - 1] + 1 && ([a] + answers)[k] == answers[k - 1];
        ShiftedTells(env, db, ca, rcid, ids, answers[k - 1], more[k - 1]);
      }
    }
  }

  // The digest is known, and if the issuer is, the serial was not revoked at an unreadable time.
  ghost predicate Tellable(env: Env, db: Db, ca: seq<nat>, id: CertId)
  {
    id.digestKnown && !(id.issuer in ca && IsTrue(env, db.rows, id.serial, Fails))
  }

  // The response to any request, over any database: an error if the request is empty or there is an identifier that
  // nothing can be told of; otherwise the truth about every identifier that it answers, in order, passing over exactly
  // those whose row is neither valid nor revoked.
  lemma ResponseTells(env: Env, db: Db, ca: seq<nat>, rcid: bool, ids: seq<CertId>) returns (places: seq<nat>)
    requires db.Indexed()
    ensures var r := Respond(env, db, ca, rcid, ids);
            if ids == [] then r == MalformedRequest
            else if exists k :: 0 <= k < |ids| && !Tellable(env, db, ca, ids[k]) then r == InternalError
            else r.Successful? && TellsAll(env, db, ca, rcid, ids, r.answers, places)
  {
    RespondSucceedsIff(env, db, ca, rcid, ids);
    forall k | 0 <= k < |ids| ensures CanAnswer(env, db, ca, ids[k]) <==> Tellable(env, db, ca, ids[k]) {
      StatusIffTrue(env, db, ids[k].serial, Fails);
    }
    hide Answers, TellsAll, Db.Indexed, CanAnswer, Tellable;
    places := [];
    var r := Respond(env, db, ca, rcid, ids);
    if r.Successful? {
      places := AnswersTell(env, db, ca, rcid, ids, []);
      assert r.answers[0..] == r.answers;
    }
  }

  // -------------------------------------------------------------------------
  // The identifiers in the answers.

  // The requested identifiers that get an answer.
  function Answered(env: Env, db: Db, ca: seq<nat>, ids: seq<CertId>): (r: seq<CertId>)
  {
    if ids == [] then []
    else if ids[0].issuer in ca && StatusOf(env, db, ids[0].serial).NoAnswer? then Answered(env, db, ca, ids[1..])
    else [ids[0]] + Answered(env, db, ca, ids[1..])
  }

  lemma {:induction false} AnswersInOrder(
    env: Env, db: Db, ca: seq<nat>, rcid: bool, ids: seq<CertId>, done: seq<Answer>)
    requires Answers(env, db, ca, rcid, ids, done).Successful?
    ensures var answers, asked := Answers(env, db, ca, rcid, ids, done).answers, Answered(env, db, ca, ids);
            && |answers| == |done| + |asked|
            && answers[..|done|] == done
            && (forall k :: 0 <= k < |asked| ==>
                  answers[|done| + k].serial == AnswerSerial(rcid, asked[k].issuer in ca, asked[k])
                  && Says(answers[|done| + k].status) ==
                     (if asked[k].issuer in ca then StatusOf(env, db, asked[k].serial) else Says(Unknown)))
    decreases |ids|
  {
    hide StatusOf;
    if ids != [] {
      var found := ids[0].issuer in ca;
      var look := if found then StatusOf(env, db, ids[0].serial) else Says(Unknown);
      if look.NoAnswer? {
        AnswersInOrder(env, db, ca, rcid, ids[1..], done);
      } else {
        var a := Answer(AnswerSerial(rcid, found, ids[0]), look.status);
        AnswersInOrder(env, db, ca, rcid, ids[1..], done + [a]);
        var answers := Answers(env, db, ca, rcid, ids, done).answers;
        assert answers[..|done| + 1] == done + [a];
        assert answers[|done|] == (done + [a])[|done|];
        assert answers[..|done|] == (done + [a])[..|done|];
      }
    }
  }

  // A request whose digest is known, and whose row, if it is revoked, has a readable time.
  predicate CanAnswer(env: Env, db: Db, ca: seq<nat>, id: CertId)
  {
    id.digestKnown && (id.issuer in ca ==> !StatusOf(env, db, id.serial).Fails?)
  }

  lemma {:induction false} AnswersSucceedIff(
    env: Env, db: Db, ca: seq<nat>, rcid: bool, ids: seq<CertId>, done: seq<Answer>)
    ensures !Answers(env, db, ca, rcid, ids, done).MalformedRequest?
    ensures Answers(env, db, ca, rcid, ids, done).Successful? <==>
            forall k :: 0 <= k < |ids| ==> CanAnswer(env, db, ca, ids[k])
    decreases |ids|
  {
    hide StatusOf;
    if ids != [] {
      var found := ids[0].issuer in ca;
      var look := if found then StatusOf(env, db, ids[0].serial) else Says(Unknown);
      assert forall k :: 0 <= k < |ids| - 1 ==> ids[1..][k] == ids[k + 1];
      if look.NoAnswer? {
        AnswersSucceedIff(env, db, ca, rcid, ids[1..], done);
      } else if look.Says? {
        AnswersSucceedIff(env, db, ca, rcid, ids[1..], done + [Answer(AnswerSerial(rcid, found, ids[0]), look.status)]);
      }
    }
  }

  // The response is an error exactly when the request is empty, a digest is unknown, or a revocation time unreadable;
  // the last cannot happen for a database that passed the load check.
  lemma RespondSucceedsIff(env: Env, db: Db, ca: seq<nat>, rcid: bool, ids: seq<CertId>)
    ensures Respond(env, db, ca, rcid, ids).MalformedRequest? <==> ids == []
    ensures Respond(env, db, ca, rcid, ids).Successful? <==>
            ids != [] && forall k :: 0 <= k < |ids| ==> CanAnswer(env, db, ca, ids[k])
    ensures db.Indexed() && RowsOk(env, db.rows) ==> forall id: CertId :: CanAnswer(env, db, ca, id) <==> id.digestKnown
  {
    hide StatusOf, Answers;
    AnswersSucceedIff(env, db, ca, rcid, ids, []);
    if db.Indexed() && RowsOk(env, db.rows) {
      forall id: CertId ensures !StatusOf(env, db, id.serial).Fails? { LoadedNeverFails(env, db, id.serial); }
    }
  }

  lemma LoadedNeverFails(env: Env, db: Db, n: int)
    requires db.Indexed() && RowsOk(env, db.rows)
    ensures !StatusOf(env, db, n).Fails?
  {
    hide Unpack, UtcTimeOk, SerialText, Key, SerialOk;
    var i := LookupSerial(db, n);
    if i.Some? && db.rows[i.value].Type() == TYPE_REV {
      assert RowOk(env, db.rows[i.value]);
      UnpackShape(env, db.rows[i.value].rev);
    }
  }

  ghost predicate Repeats(env: Env, db: Db, ca: seq<nat>, rcid: bool, ids: seq<CertId>)
  {
    var r, asked := Respond(env, db, ca, rcid, ids), Answered(env, db, ca, ids);
    r.Successful? && |r.answers| == |asked| && forall k :: 0 <= k < |asked| ==> r.answers[k].serial == asked[k].serial
  }

  // Serials other than 0 are asked of known issuers only for rows that get no answer.
  ghost predicate OnlyUnanswered(env: Env, db: Db, ca: seq<nat>, ids: seq<CertId>)
  {
    forall id :: id in ids && id.issuer in ca && id.serial != 0 ==> StatusOf(env, db, id.serial).NoAnswer?
  }

  lemma {:induction false} AnsweredIn(env: Env, db: Db, ca: seq<nat>, ids: seq<CertId>)
    ensures forall id :: id in Answered(env, db, ca, ids) <==>
                         id in ids && !(id.issuer in ca && StatusOf(env, db, id.serial).NoAnswer?)
  {
    hide StatusOf;
    if ids != [] {
      AnsweredIn(env, db, ca, ids[1..]);
      assert ids == [ids[0]] + ids[1..];
    }
  }

  // Every answer repeats the serial that was asked for exactly when -rcid is not given, or a serial other than 0 is
  // asked of a known issuer only for rows that get no answer.
  lemma AnswersRepeatSerials(env: Env, db: Db, ca: seq<nat>, rcid: bool, ids: seq<CertId>)
    requires Respond(env, db, ca, rcid, ids).Successful?
    ensures Repeats(env, db, ca, rcid, ids) <==>
            !rcid || OnlyUnanswered(env, db, ca, ids)
  {
    hide StatusOf, Answers, Answered;
    AnswersInOrder(env, db, ca, rcid, ids, []);
    AnsweredIn(env, db, ca, ids);
    var answers, asked := Respond(env, db, ca, rcid, ids).answers, Answered(env, db, ca, ids);
    forall k | 0 <= k < |asked| ensures answers[k].serial == AnswerSerial(rcid, asked[k].issuer in ca, asked[k]) {
      assert answers[0 + k].serial == AnswerSerial(rcid, asked[k].issuer in ca, asked[k]);
    }
    if rcid && Repeats(env, db, ca, rcid, ids) {
      forall id | id in ids && id.issuer in ca && id.serial != 0 ensures StatusOf(env, db, id.serial).NoAnswer? {
        assert id !in asked;
      }
    }
  }

  // The request alone decides whether its serials are repeated whatever the database holds: they are exactly when
  // -rcid is not given or only serial 0 is asked of known issuers.
  lemma RequestDecidesRepeats(env: Env, ca: seq<nat>, rcid: bool, ids: seq<CertId>)
    requires ids != [] && forall k :: 0 <= k < |ids| ==> ids[k].digestKnown
    ensures (forall db: Db :: Respond(env, db, ca, rcid, ids).Successful? ==> Repeats(env, db, ca, rcid, ids)) <==>
            !rcid || forall id :: id in ids && id.issuer in ca ==> id.serial == 0
  {
    hide Respond, Repeats;
    forall db: Db | Respond(env, db, ca, rcid, ids).Successful?
      ensures Repeats(env, db, ca, rcid, ids) <==>
              !rcid || OnlyUnanswered(env, db, ca, ids)
    {
      AnswersRepeatSerials(env, db, ca, rcid, ids);
    }
    var none := IndexOf([], false);
    forall n: int ensures StatusOf(env, none, n) == Says(Unknown) { NothingKnown(env, n); }
    RespondSucceedsIff(env, none, ca, rcid, ids);
  }

  lemma NothingKnown(env: Env, n: int)
    ensures StatusOf(env, IndexOf([], false), n) == Says(Unknown)
  {
    hide Unpack, SerialText, Key;
    assert SerialMap([]) == map[];
  }

  // With -rcid, an authority that has issued nothing answers a question about serial 1 with an answer about serial 0.
  lemma RcidForgetsSerial(env: Env)
    ensures Respond(env, IndexOf([], false), [7], true, [CertId(true, 7, 1)]) == Successful([Answer(0, Unknown)])
    ensures !Repeats(env, IndexOf([], false), [7], true, [CertId(true, 7, 1)])
  {
    var db, id := IndexOf([], false), CertId(true, 7, 1);
    NothingKnown(env, 1);
    hide StatusOf, IndexOf;
    assert [id][1..] == [];
    assert [] + [Answer(0, Unknown)] == [Answer(0, Unknown)];
    assert Answers(env, db, [7], true, [], [Answer(0, Unknown)]) == Successful([Answer(0, Unknown)]);
    assert Answers(env, db, [7], true, [id], []) == Answers(env, db, [7], true, [], [Answer(0, Unknown)]);
    AnswersRepeatSerials(env, db, [7], true, [id]);
    assert id in [id];
  }
}
