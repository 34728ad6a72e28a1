// Whole runs of the certificate authority: the index file and the table in memory over any
// sequence of starts, updates, batches, imports and revocations.
module CaRuns {
  import opened Prelude
  import opened Hex
  import opened RevInfo
  import opened Time
  import opened CaDatabase
  import Commit
  import Serials
  import TxtDb

  // -------------------------------------------------------------------------
  // The index file.

  function Texts(rows: seq<Row>): (f: seq<TxtDb.Fields>)
    ensures |f| == |rows| && forall i :: 0 <= i < |rows| ==> f[i] == rows[i].Fields()
  {
    if rows == [] then [] else [rows[0].Fields()] + Texts(rows[1..])
  }

  function RowsOf(f: seq<TxtDb.Fields>): (rows: seq<Row>)
    requires forall i :: 0 <= i < |f| ==> |f[i]| == DB_NUMBER
    ensures |rows| == |f| && forall i :: 0 <= i < |f| ==> rows[i] == FromFields(f[i])
  {
    if f == [] then [] else [FromFields(f[0])] + RowsOf(f[1..])
  }

  lemma RowsOfTexts(rows: seq<Row>)
    ensures RowsOf(Texts(rows)) == rows
  {
  }

  // save_index
  function Save(rows: seq<Row>): string
  {
    TxtDb.WriteRows(Texts(rows))
  }

  // The fields that ca_main checks after loading.
  predicate RowOk(env: Env, row: Row)
  {
    && (row.Type() != TYPE_REV ==> row.rev == "")
    && (row.Type() == TYPE_REV ==> Unpack(env, row.rev).0)
    && env.moment(row.exp).Some?
    && SerialOk(row.serial)
  }

  predicate RowsOk(env: Env, rows: seq<Row>)
  {
    forall i :: 0 <= i < |rows| ==> RowOk(env, rows[i])
  }

  // load_index, the checks of ca_main and index_index.
  function Load(env: Env, disk: string, unique: bool): (r: Option<Db>)
  {
    match TxtDb.ReadRows(disk, DB_NUMBER)
    case None => None
    case Some(f) =>
      var rows := RowsOf(f);
      if RowsOk(env, rows) && SerialsDistinct(rows) && (unique ==> ValidSubjectsDistinct(rows))
      then Some(IndexOf(rows, unique)) else None
  }

  // -------------------------------------------------------------------------
  // The rows that the tool itself writes.  Whether the file of such a row can be loaded again is another matter: it
  // depends on the expiry date, which is copied from a certificate, and on the revocation text.

  predicate PlainField(s: string)
  {
    '\n' !in s && !TxtDb.EndsInEscape(s)
  }

  predicate GoodRow(row: Row)
  {
    && row.typ in {"V", "E", "R"}
    && (row.Type() != TYPE_REV ==> row.rev == "")
    && SerialOk(row.serial)
    && row.serial == SerialText(SerialValue(row.serial))
    && PlainField(row.file) && '\n' !in row.name
  }

  ghost predicate AllGood(rows: seq<Row>)
  {
    forall i :: 0 <= i < |rows| ==> GoodRow(rows[i])
  }

  ghost predicate TableOk(unique: bool, rows: seq<Row>)
  {
    AllGood(rows) && SerialsDistinct(rows) && (unique ==> ValidSubjectsDistinct(rows))
  }

  // An expiry date that does not spoil the line it is written in, and that the load check accepts.
  predicate GoodExpiry(env: Env, exp: string)
  {
    PlainField(exp) && env.moment(exp).Some?
  }

  predicate Loadable(env: Env, row: Row)
  {
    GoodExpiry(env, row.exp) && PlainField(row.rev) && (row.Type() == TYPE_REV ==> Unpack(env, row.rev).0)
  }

  ghost predicate AllLoadable(env: Env, rows: seq<Row>)
  {
    forall i :: 0 <= i < |rows| ==> Loadable(env, rows[i])
  }

  lemma SerialTextPlain(n: int)
    ensures PlainField(SerialText(n))
  {
    var m: nat := if n < 0 then -n else n;
    assert forall i :: 0 <= i < |Bytes(m)| ==> IsUpperHex(Bytes(m)[i]);
    if n != 0 { assert SerialText(n)[|SerialText(n)| - 1] == Bytes(m)[|Bytes(m)| - 1]; }
  }

  // A good row is never taken for another, and can be read if its expiry date and revocation text are plain.
  lemma GoodRowRead(row: Row)
    requires GoodRow(row)
    ensures TxtDb.Tame(row.Fields()) && |row.Fields()| == DB_NUMBER
    ensures TxtDb.Readable(row.Fields()) <==> PlainField(row.exp) && PlainField(row.rev)
  {
    SerialTextPlain(SerialValue(row.serial));
    hide SerialText, SerialOk, SerialValue;
    assert row.typ == "V" || row.typ == "E" || row.typ == "R";
    PlainRowRead(row);
  }

  lemma PlainRowRead(row: Row)
    requires row.typ == "V" || row.typ == "E" || row.typ == "R"
    requires PlainField(row.serial) && PlainField(row.file) && '\n' !in row.name
    ensures TxtDb.Tame(row.Fields()) && |row.Fields()| == DB_NUMBER
    ensures TxtDb.Readable(row.Fields()) <==> PlainField(row.exp) && PlainField(row.rev)
  {
    var f := row.Fields();
    assert PlainField(row.typ) && row.typ[0] != '#';
    assert f[1] == row.exp && f[2] == row.rev;
  }

  lemma GoodRowOk(env: Env, row: Row)
    requires GoodRow(row) && PlainField(row.exp) && PlainField(row.rev)
    ensures RowOk(env, row) <==> Loadable(env, row)
  {
    hide SerialText, SerialOk, SerialValue, Unpack;
  }

  // Every table of such rows, once saved, is read back as it was or not at all, and is loaded exactly if every expiry
  // date is a plain one that the load check accepts, every revocation text is plain and can be unpacked, and the
  // subjects of valid rows are distinct where that is asked for.
  lemma SaveLoad(env: Env, unique: bool, rows: seq<Row>)
    requires TableOk(false, rows)
    ensures TxtDb.ReadRows(Save(rows), DB_NUMBER) in {Some(Texts(rows)), None}
    ensures Load(env, Save(rows), unique) ==
            if AllLoadable(env, rows) && (unique ==> ValidSubjectsDistinct(rows)) then Some(IndexOf(rows, unique))
            else None
  {
    hide GoodRow, RowOk, Loadable, Save, Load, SerialsDistinct, ValidSubjectsDistinct;
    SavedReads(rows);
    if AllPlain(rows) {
      LoadRead(env, Save(rows), unique, rows);
      forall i | 0 <= i < |rows| ensures RowOk(env, rows[i]) <==> Loadable(env, rows[i]) { GoodRowOk(env, rows[i]); }
    } else {
      UnreadNotLoaded(env, Save(rows), unique);
      LoadableIsPlain(env, rows);
    }
  }

  ghost predicate AllPlain(rows: seq<Row>)
  {
    forall i :: 0 <= i < |rows| ==> PlainField(rows[i].exp) && PlainField(rows[i].rev)
  }

  lemma LoadableIsPlain(env: Env, rows: seq<Row>)
    ensures AllLoadable(env, rows) ==> AllPlain(rows)
  {
    hide PlainField, Unpack;
    if AllLoadable(env, rows) {
      forall i | 0 <= i < |rows| ensures PlainField(rows[i].exp) && PlainField(rows[i].rev) {
        assert Loadable(env, rows[i]);
      }
    }
  }

  lemma SavedReads(rows: seq<Row>)
    requires AllGood(rows)
    ensures TxtDb.ReadRows(Save(rows), DB_NUMBER) == if AllPlain(rows) then Some(Texts(rows)) else None
  {
    hide GoodRow, TxtDb.Readable, TxtDb.Tame, PlainField;
    var f := Texts(rows);
    forall i | 0 <= i < |f|
      ensures |f[i]| == DB_NUMBER && TxtDb.Tame(f[i])
      ensures TxtDb.Readable(f[i]) <==> PlainField(rows[i].exp) && PlainField(rows[i].rev)
    {
      GoodRowRead(rows[i]);
    }
    TxtDb.TameRowsRead(f, DB_NUMBER);
    assert TxtDb.AllReadable(f) <==> AllPlain(rows);
  }

  lemma LoadRead(env: Env, disk: string, unique: bool, rows: seq<Row>)
    requires TxtDb.ReadRows(disk, DB_NUMBER) == Some(Texts(rows)) && SerialsDistinct(rows)
    ensures Load(env, disk, unique)
         == if RowsOk(env, rows) && (unique ==> ValidSubjectsDistinct(rows)) then Some(IndexOf(rows, unique)) else None
  {
    hide RowsOk, SerialsDistinct, ValidSubjectsDistinct, IndexOf;
    RowsOfTexts(rows);
  }

  lemma UnreadNotLoaded(env: Env, disk: string, unique: bool)
    requires TxtDb.ReadRows(disk, DB_NUMBER) == None
    ensures Load(env, disk, unique) == None
  {
  }

  // A row that passes: a revoked one has a revocation date that can be unpacked, any other none; the expiry date is
  // readable; the serial is a number of bytes in hexadecimal.
  predicate Passes(env: Env, row: Row)
  {
    && (if row.typ != "" && row.typ[0] == 'R' then Unpack(env, row.rev).0 else row.rev == "")
    && env.moment(row.exp).Some? && SerialOk(row.serial)
  }

  // Any table that is read, also one that was edited by hand, is loaded exactly if every row passes, no two serials are
  // the same but for leading zeros, and no two valid rows have the same subject, where that is asked for.
  lemma LoadsIff(env: Env, disk: string, unique: bool, rows: seq<Row>)
    requires TxtDb.ReadRows(disk, DB_NUMBER) == Some(Texts(rows))
    ensures Load(env, disk, unique).Some? <==>
            && (forall i :: 0 <= i < |rows| ==> Passes(env, rows[i]))
            && SerialsDistinct(rows) && (unique ==> ValidSubjectsDistinct(rows))
    ensures Load(env, disk, unique).Some? ==>
              var db := Load(env, disk, unique).value;
              db.Indexed() && db.rows == rows && db.unique == unique
  {
    RowsOfTexts(rows);
    forall i | 0 <= i < |rows| ensures RowOk(env, rows[i]) <==> Passes(env, rows[i]) { RowOkIffPasses(env, rows[i]); }
    hide RowOk, Passes, SerialsDistinct, ValidSubjectsDistinct, SerialMap, NameMap, Db.Indexed;
    if Load(env, disk, unique).Some? { IndexOfIndexed(rows, unique); }
  }

  lemma RowOkIffPasses(env: Env, row: Row)
    ensures RowOk(env, row) <==> Passes(env, row)
  {
    hide Unpack, SerialOk;
  }

  // -------------------------------------------------------------------------
  // The system: the rows that the index file was saved from, so that its text is Save(rows); the number in the serial
  // file, if there is one; and the table of the running process, if any.

  datatype Sys = Sys(rows: seq<Row>, serial: Option<int>, mem: Option<Db>)

  datatype Step =
    | Start
    | DoUpdate(now: int)
    | Issue(source: Serials.Source, reqs: seq<Request>, commit: bool)
    | ImportOrRevoke(cert: Certificate, t: RevType, arg: string, clock: Tm)
    | Stop

  predicate IsPhase(step: Step)
  {
    !step.Start? && !step.Stop? && (step.ImportOrRevoke? ==> step.clock.Valid())
  }

  // How a phase comes out: it fails, which ends the process; it goes on without saving; or it saves the table and, if
  // it uses the serial file, the number after the last certificate.
  datatype Outcome = Ends | Continues(db: Db) | Saves(db: Db, serial: Option<int>, certificates: bool)

  function Phase(env: Env, db: Db, serial: Option<int>, step: Step): Outcome
    requires IsPhase(step)
  {
    match step
    case DoUpdate(now) =>
      var (cnt, db') := Update(env, db, now);
      if cnt < 0 then Ends else if cnt == 0 then Continues(db') else Saves(db', None, false)
    case Issue(source, reqs, commit) => IssuePhase(db, serial, source, reqs, commit)
    case ImportOrRevoke(cert, t, arg, now) =>
      var (ok, db') := Revoke(env, db, cert, t, arg, now);
      if ok then Saves(db', None, false) else Ends
  }

  // The issue phase: without a serial it fails; with certificates to write it asks for the commit.
  function IssuePhase(db: Db, serial: Option<int>, source: Serials.Source, reqs: seq<Request>, commit: bool): Outcome
  {
    var first := Serials.First(serial, source);
    if first.None? then Ends
    else
      var r := Batch(db, first.value, reqs);
      if !r.ok then Ends
      else if |r.db.rows| == |db.rows| then Continues(r.db)
      else if commit then Saves(r.db, if source.ByConfig? then None else Some(r.serial), true)
      else Ends
  }

  // Here saving is one step.
  function Next(env: Env, unique: bool, sys: Sys, step: Step): (sys': Sys)
    requires step.ImportOrRevoke? ==> step.clock.Valid()
  {
    match step
    case Start => sys.(mem := Load(env, Save(sys.rows), unique))
    case Stop => sys.(mem := None)
    case _ =>
      if sys.mem.None? then sys
      else
        match Phase(env, sys.mem.value, sys.serial, step)
        case Ends => sys.(mem := None)
        case Continues(db) => sys.(mem := Some(db))
        case Saves(db, serial, _) => Sys(db.rows, if serial.Some? then serial else sys.serial, Some(db))
  }

  // The revocation types that record their argument.
  predicate Records(t: RevType)
  {
    t.RevHold? || t.RevKeyTime? || t.RevCaTime?
  }

  // What the library and the tool guarantee: a one-line subject has no newline, and the expiry date of a certificate
  // that the tool makes was checked.  That of a certificate which was made elsewhere was not.
  predicate StepOk(env: Env, step: Step)
  {
    match step
    case Issue(_, reqs, _) =>
      forall i :: 0 <= i < |reqs| && reqs[i].Wanted? ==>
        '\n' !in reqs[i].subject && GoodExpiry(env, reqs[i].notAfter)
    case ImportOrRevoke(cert, t, arg, now) => '\n' !in cert.subject && now.Valid()
    case _ => true
  }

  lemma OkIsPhase(env: Env, step: Step)
    requires StepOk(env, step) && !step.Start? && !step.Stop?
    ensures IsPhase(step)
  {
  }

  // The table in memory is the one that was saved.
  ghost predicate MemOk(unique: bool, rows: seq<Row>, db: Db)
  {
    db.Indexed() && db.unique == unique && db.rows == rows
  }

  ghost predicate Inv(env: Env, unique: bool, sys: Sys)
  {
    TableOk(unique, sys.rows) && (sys.mem.Some? ==> MemOk(unique, sys.rows, sys.mem.value))
  }

  lemma EvolvesRefl(rows: seq<Row>)
    ensures Evolves(rows, rows)
  {
  }

  // A good table is loaded as it was saved, if it is loaded.
  lemma LoadedOk(env: Env, unique: bool, rows: seq<Row>)
    requires TableOk(unique, rows)
    ensures Load(env, Save(rows), unique) == if AllLoadable(env, rows) then Some(IndexOf(rows, unique)) else None
    ensures MemOk(unique, rows, IndexOf(rows, unique))
  {
    hide GoodRow, Loadable, Save, Load, Db.Indexed;
    SaveLoad(env, unique, rows);
    IndexOfIndexed(rows, unique);
  }

  // -------------------------------------------------------------------------
  // Every step keeps the invariant.

  lemma NewRowGood(cert: Certificate)
    requires '\n' !in cert.subject
    ensures GoodRow(cert.NewRow())
  {
    SerialTextCanonical(cert.serial);
    SerialTextPlain(cert.serial);
    hide SerialText, SerialOk, SerialValue;
    assert cert.NewRow().Type() == TYPE_VAL;
  }

  lemma ExpiredGood(env: Env, row: Row, now: int)
    requires GoodRow(row)
    ensures GoodRow(Expired(env, row, now))
  {
    hide SerialText, SerialOk, SerialValue;
    assert Due(env, row, now) ==> Expired(env, row, now).Type() == TYPE_EXP;
  }

  lemma ReasonPlain(i: nat)
    requires i < |REASONS|
    ensures PlainField(REASONS[i])
  {
    ReasonsPlain(i);
    hide REASONS;
    assert forall k :: 0 <= k < |REASONS[i]| ==> IsLetter(REASONS[i][k]);
  }

  lemma CommaPlain(a: string, b: Option<string>)
    requires PlainField(a)
    ensures PlainField(a + Comma(b)) <==> (b.Some? ==> PlainField(b.value))
  {
    var s := a + Comma(b);
    if b.Some? {
      if b.value == "" {
        assert s[|s| - 1] == ',';
      } else {
        assert s[|s| - 1] == b.value[|b.value| - 1];
      }
    } else {
      assert s == a;
    }
  }

  // A revocation text is plain unless it records an argument that is not.
  lemma RevocationPlain(env: Env, t: RevType, arg: string, now: Tm)
    requires now.Valid() && MakeRevocation(env, t, arg, now).Some?
    ensures PlainField(MakeRevocation(env, t, arg, now).value) <==> (Records(t) ==> PlainField(arg))
  {
    hide ClockText, REASONS, PlainField;
    var (reason, extra) := Parts(env, t, arg).value;
    ClockPlain(now);
    PartsPlain(env, t, arg);
    CommaPlain(ClockText(now), reason);
    CommaPlain(ClockText(now) + Comma(reason), extra);
  }

  lemma ClockPlain(now: Tm)
    requires now.Valid()
    ensures PlainField(ClockText(now))
  {
    hide ClockText;
    ClockTextChars(now);
  }

  lemma PartsPlain(env: Env, t: RevType, arg: string)
    requires Parts(env, t, arg).Some?
    ensures var (reason, extra) := Parts(env, t, arg).value;
            (reason.Some? ==> PlainField(reason.value)) && extra == if Records(t) then Some(arg) else None
  {
    hide PlainField;
    if t.RevReason? {
      ReasonPlain(ReasonIndex(arg, 8));
    } else {
      ReasonPlain(8);
      ReasonPlain(9);
      ReasonPlain(10);
    }
  }

  lemma RevokedGood(row: Row, s: string)
    requires GoodRow(row)
    ensures RevokedRow(row, s) == row.(typ := "R", rev := s) && GoodRow(RevokedRow(row, s))
  {
    hide SerialText, SerialOk, SerialValue, PlainField;
    assert RevokedRow(row, s).Type() == TYPE_REV;
  }

  lemma {:induction false} GrantedFrom(reqs: seq<Request>)
    ensures forall i :: 0 <= i < |Granted(reqs)| ==> Granted(reqs)[i] in reqs
  {
    if reqs != [] {
      GrantedFrom(reqs[1..]);
      assert forall r :: r in reqs[1..] ==> r in reqs;
    }
  }

  lemma UpdateGood(env: Env, rows: seq<Row>, now: int)
    requires AllGood(rows)
    ensures AllGood(UpdateRows(env, rows, now).1)
  {
    hide GoodRow;
    UpdateRowsMarksDue(env, rows, now);
    forall i | 0 <= i < |rows| ensures GoodRow(Expired(env, rows[i], now)) { ExpiredGood(env, rows[i], now); }
  }

  lemma BatchGood(env: Env, db: Db, serial: int, reqs: seq<Request>)
    requires db.Indexed() && AllGood(db.rows) && StepOk(env, Issue(Serials.Live, reqs, true))
    requires Batch(db, serial, reqs).ok
    ensures AllGood(Batch(db, serial, reqs).db.rows)
  {
    hide GoodRow, Db.Indexed, GoodExpiry;
    BatchIssues(db, serial, reqs);
    GrantedFrom(reqs);
    var g := Granted(reqs);
    forall i | 0 <= i < |g| ensures GoodRow(IssuedRows(serial, g)[i]) {
      NewRowGood(Certificate(serial + i, g[i].subject, g[i].notAfter));
    }
  }

  lemma RevokeGood(env: Env, db: Db, cert: Certificate, t: RevType, arg: string, now: Tm)
    requires db.Indexed() && AllGood(db.rows) && '\n' !in cert.subject && now.Valid()
    requires Revoke(env, db, cert, t, arg, now).0
    ensures AllGood(Revoke(env, db, cert, t, arg, now).1.rows)
  {
    hide GoodRow, Db.Indexed, Revoke;
    RevokeOutcome(env, db, cert, t, arg, now);
    NewRowGood(cert);
    var base, db' := RevokeBase(db, cert), Revoke(env, db, cert, t, arg, now).1;
    assert AllGood(base);
    if t != RevValid {
      assert MakeRevocation(env, t, arg, now).Some?;
      var s := MakeRevocation(env, t, arg, now).value;
      var i: nat :| RevokesOne(base, db'.rows, SerialText(cert.serial), i, s);
      RevokedGood(base[i], s);
    }
  }

  // No good row has an empty type, so none loses its expiry date.
  lemma GoodKeepsExpiry(env: Env, db: Db, cert: Certificate, t: RevType, arg: string, now: Tm)
    requires db.Indexed() && AllGood(db.rows) && now.Valid()
    ensures !LosesExpiry(env, db, cert, t, arg, now)
    ensures Evolves(db.rows, Revoke(env, db, cert, t, arg, now).1.rows)
  {
    RevokeEvolves(env, db, cert, t, arg, now);
    hide Revoke, SerialText, RevokeAccepted, Key;
    var i := db.FindSerial(SerialText(cert.serial));
    if i.Some? { assert GoodRow(db.rows[i.value]); }
  }

  // A table in memory whose rows are good, once it is saved.
  lemma StepKept(env: Env, unique: bool, serial: Option<int>, db: Db)
    requires db.Indexed() && db.unique == unique && AllGood(db.rows)
    ensures Inv(env, unique, Sys(db.rows, serial, Some(db)))
  {
    hide GoodRow;
    IndexedIsDistinct(db);
  }

  // What every phase keeps, whatever the setting: the indexes, the rows that the tool writes, the permitted changes.
  ghost predicate Kept(env: Env, db: Db, out: Outcome)
  {
    match out
    case Ends => true
    case Continues(db') => db'.Indexed() && db'.unique == db.unique && db'.rows == db.rows
    case Saves(db', _, _) =>
      db'.Indexed() && db'.unique == db.unique && AllGood(db'.rows) && Evolves(db.rows, db'.rows)
  }

  lemma PhaseKept(env: Env, db: Db, serial: Option<int>, step: Step)
    requires db.Indexed() && AllGood(db.rows) && IsPhase(step) && StepOk(env, step)
    ensures Kept(env, db, Phase(env, db, serial, step))
  {
    hide Db.Indexed, AllGood, Evolves, UpdateRows, Revoke, IssuePhase;
    match step {
      case DoUpdate(now) =>
        UpdateIndexed(env, db, now);
        UpdateGood(env, db.rows, now);
        UpdateEvolves(env, db, now);
        if UpdateRows(env, db.rows, now).0 == 0 { NothingDue(env, db.rows, now); }
      case Issue(source, reqs, commit) =>
        IssueKept(env, db, serial, step);
      case ImportOrRevoke(cert, t, arg, now) =>
        RevokeOutcome(env, db, cert, t, arg, now);
        if Revoke(env, db, cert, t, arg, now).0 {
          RevokeGood(env, db, cert, t, arg, now);
          GoodKeepsExpiry(env, db, cert, t, arg, now);
        }
    }
  }

  lemma {:induction false} NothingDue(env: Env, rows: seq<Row>, now: int)
    requires UpdateRows(env, rows, now).0 == 0
    ensures UpdateRows(env, rows, now).1 == rows
  {
    if rows != [] { NothingDue(env, rows[1..], now); }
  }

  lemma IssueKept(env: Env, db: Db, serial: Option<int>, step: Step)
    requires db.Indexed() && AllGood(db.rows) && step.Issue? && StepOk(env, step)
    ensures Kept(env, db, IssuePhase(db, serial, step.source, step.reqs, step.commit))
  {
    hide Db.Indexed, AllGood, Evolves, GoodExpiry, Batch;
    var first := Serials.First(serial, step.source);
    if first.Some? && Batch(db, first.value, step.reqs).ok {
      var r := Batch(db, first.value, step.reqs);
      BatchKeeps(db, first.value, step.reqs);
      IssueOk(env, step);
      BatchGood(env, db, first.value, step.reqs);
      EvolvesPrefix(db.rows, r.db.rows);
      if |r.db.rows| == |db.rows| { assert r.db.rows == db.rows; }
    }
  }

  lemma NextInv(env: Env, unique: bool, sys: Sys, step: Step)
    requires Inv(env, unique, sys) && StepOk(env, step)
    ensures Inv(env, unique, Next(env, unique, sys, step))
    ensures Evolves(sys.rows, Next(env, unique, sys, step).rows)
  {
    EvolvesRefl(sys.rows);
    hide TableOk, Db.Indexed, Save, Load, AllGood, Evolves, StepOk, Phase;
    if step.Start? {
      LoadedOk(env, unique, sys.rows);
    } else if !step.Stop? && sys.mem.Some? {
      OkIsPhase(env, step);
      TableGood(unique, sys.rows);
      PhaseKept(env, sys.mem.value, sys.serial, step);
      var out := Phase(env, sys.mem.value, sys.serial, step);
      if out.Saves? { StepKept(env, unique, if out.serial.Some? then out.serial else sys.serial, out.db); }
    }
  }

  lemma TableGood(unique: bool, rows: seq<Row>)
    requires TableOk(unique, rows)
    ensures AllGood(rows)
  {
    hide GoodRow;
  }

  lemma IssueOk(env: Env, step: Step)
    requires step.Issue? && StepOk(env, step)
    ensures StepOk(env, Issue(Serials.Live, step.reqs, true))
  {
  }

  // -------------------------------------------------------------------------
  // Which steps leave a file that can be loaded.

  predicate ReadableYear(now: Tm)
  {
    1950 <= now.year < 2050
  }

  // The text of a revocation can be read again.
  predicate TextReadable(t: RevType, arg: string, now: Tm)
  {
    t != RevValid ==> ReadableYear(now) && (Records(t) ==> PlainField(arg))
  }

  // An import or revocation that is accepted, but leaves a row which cannot be loaded again: the certificate was not
  // known and has a bad expiry date, or the text of the revocation cannot be read.
  predicate Spoils(env: Env, db: Db, step: Step)
    requires step.ImportOrRevoke? ==> step.clock.Valid()
  {
    && step.ImportOrRevoke?
    && RevokeAccepted(env, db, step.cert, step.t, step.arg, step.clock)
    && (|| (db.FindSerial(SerialText(step.cert.serial)).None? && !GoodExpiry(env, step.cert.notAfter))
        || !TextReadable(step.t, step.arg, step.clock))
  }

  predicate SpoilingStep(env: Env, sys: Sys, step: Step)
    requires StepOk(env, step)
  {
    !step.Start? && !step.Stop? && sys.mem.Some? && Spoils(env, sys.mem.value, step)
  }

  lemma UpdateLoadable(env: Env, rows: seq<Row>, now: int)
    requires UpdateRows(env, rows, now).0 >= 0
    ensures AllLoadable(env, UpdateRows(env, rows, now).1) <==> AllLoadable(env, rows)
  {
    var rows' := UpdateRows(env, rows, now).1;
    UpdateRowsMarksDue(env, rows, now);
    hide GoodExpiry;
    forall i | 0 <= i < |rows| ensures Loadable(env, rows'[i]) <==> Loadable(env, rows[i]) {
      assert rows'[i] == Expired(env, rows[i], now);
    }
    hide Loadable;
  }

  lemma NewRowLoadable(env: Env, cert: Certificate)
    ensures Loadable(env, cert.NewRow()) <==> GoodExpiry(env, cert.notAfter)
  {
    hide GoodExpiry, SerialText;
    assert cert.NewRow().Type() == TYPE_VAL && PlainField("");
  }

  lemma IssuedLoadable(env: Env, db: Db, serial: int, reqs: seq<Request>)
    requires db.Indexed() && Batch(db, serial, reqs).ok && StepOk(env, Issue(Serials.Live, reqs, true))
    ensures AllLoadable(env, Batch(db, serial, reqs).db.rows) <==> AllLoadable(env, db.rows)
  {
    hide Batch, Db.Indexed, GoodExpiry, AllLoadable, IssuedRows;
    BatchIssues(db, serial, reqs);
    GrantedFrom(reqs);
    var g := Granted(reqs);
    forall i | 0 <= i < |g| ensures GoodExpiry(env, g[i].notAfter) { assert g[i] in reqs; }
    NewRowsLoadable(env, serial, g);
    AppendLoadable(env, db.rows, IssuedRows(serial, g));
  }

  lemma NewRowsLoadable(env: Env, serial: int, g: seq<Request>)
    requires forall i :: 0 <= i < |g| ==> g[i].Wanted? && GoodExpiry(env, g[i].notAfter)
    ensures AllLoadable(env, IssuedRows(serial, g))
  {
    hide GoodExpiry, Loadable, Certificate.NewRow;
    forall i | 0 <= i < |g| ensures Loadable(env, IssuedRows(serial, g)[i]) {
      NewRowLoadable(env, Certificate(serial + i, g[i].subject, g[i].notAfter));
    }
  }

  lemma AppendLoadable(env: Env, a: seq<Row>, b: seq<Row>)
    ensures AllLoadable(env, a + b) <==> AllLoadable(env, a) && AllLoadable(env, b)
  {
    hide Loadable;
    assert forall i :: 0 <= i < |a| ==> (a + b)[i] == a[i];
    assert forall i :: 0 <= i < |b| ==> (a + b)[|a| + i] == b[i];
  }

  // The row of a revocation can be loaded exactly if it could be before and the text of the revocation can be read.
  lemma RevokedLoadable(env: Env, row: Row, t: RevType, arg: string, now: Tm)
    requires now.Valid() && t != RevValid && MakeRevocation(env, t, arg, now).Some?
    requires GoodRow(row) && row.Type() != TYPE_REV
    ensures Loadable(env, RevokedRow(row, MakeRevocation(env, t, arg, now).value)) <==>
            Loadable(env, row) && TextReadable(t, arg, now)
  {
    var s := MakeRevocation(env, t, arg, now).value;
    UnpackUndoesMake(env, t, arg, now);
    RevocationPlain(env, t, arg, now);
    RevokedGood(row, s);
    UnrevokedRow(row);
    hide MakeRevocation, Unpack, GoodRow, GoodExpiry, RevokedRow, PlainField;
    assert RevokedRow(row, s).Type() == TYPE_REV;
  }

  lemma UnrevokedRow(row: Row)
    requires GoodRow(row) && row.Type() != TYPE_REV
    ensures row.rev == "" && PlainField("")
  {
    hide SerialText, SerialOk, SerialValue;
  }

  lemma ReplacedLoadable(env: Env, rows: seq<Row>, i: nat, row: Row, readable: bool)
    requires i < |rows| && (Loadable(env, row) <==> Loadable(env, rows[i]) && readable)
    ensures AllLoadable(env, rows[i := row]) <==> AllLoadable(env, rows) && readable
  {
    hide Loadable;
    var rows' := rows[i := row];
    assert rows'[i] == row && forall j :: 0 <= j < |rows| && j != i ==> rows'[j] == rows[j];
  }

  lemma OneRevokedLoadable(env: Env, before: seq<Row>, after: seq<Row>, serial: string, i: nat,
                           t: RevType, arg: string, now: Tm)
    requires now.Valid() && t != RevValid && MakeRevocation(env, t, arg, now).Some? && AllGood(before)
    requires RevokesOne(before, after, serial, i, MakeRevocation(env, t, arg, now).value)
    ensures AllLoadable(env, after) <==> AllLoadable(env, before) && TextReadable(t, arg, now)
  {
    hide Loadable, GoodRow, MakeRevocation, RevokedRow, TextReadable, AllLoadable, Key;
    RevokedLoadable(env, before[i], t, arg, now);
    ReplacedLoadable(env, before, i, after[i], TextReadable(t, arg, now));
  }

  // The rows before a revocation, with the one that is added for an unknown certificate.
  lemma BaseLoadable(env: Env, db: Db, cert: Certificate)
    requires AllGood(db.rows) && '\n' !in cert.subject
    ensures AllGood(RevokeBase(db, cert))
    ensures AllLoadable(env, RevokeBase(db, cert)) <==>
            && AllLoadable(env, db.rows)
            && (db.FindSerial(SerialText(cert.serial)).None? ==> GoodExpiry(env, cert.notAfter))
  {
    NewRowLoadable(env, cert);
    NewRowGood(cert);
    AppendLoadable(env, db.rows, [cert.NewRow()]);
    hide Loadable, GoodRow, GoodExpiry, SerialText;
    assert [cert.NewRow()][0] == cert.NewRow();
  }

  lemma RevokeLoadable(env: Env, db: Db, cert: Certificate, t: RevType, arg: string, now: Tm)
    requires now.Valid() && db.Indexed() && AllGood(db.rows) && '\n' !in cert.subject
    requires RevokeAccepted(env, db, cert, t, arg, now)
    ensures AllLoadable(env, Revoke(env, db, cert, t, arg, now).1.rows) <==>
            AllLoadable(env, db.rows) && !Spoils(env, db, ImportOrRevoke(cert, t, arg, now))
  {
    assert t != RevValid ==> MakeRevocation(env, t, arg, now).Some?;
    assert t == RevValid ==> RevokeBase(db, cert) == db.rows + [cert.NewRow()];
    hide Revoke, RevokeAccepted, RevokeBase, MakeRevocation, Db.Indexed, RevokesOne, AllLoadable, AllGood, SerialText;
    hide TextReadable, GoodExpiry;
    ImportHasNoText(t, arg, now);
    RevokeOutcome(env, db, cert, t, arg, now);
    BaseLoadable(env, db, cert);
    if t != RevValid {
      var s, base := MakeRevocation(env, t, arg, now).value, RevokeBase(db, cert);
      var rows := Revoke(env, db, cert, t, arg, now).1.rows;
      var i: nat :| RevokesOne(base, rows, SerialText(cert.serial), i, s);
      OneRevokedLoadable(env, base, rows, SerialText(cert.serial), i, t, arg, now);
    }
  }

  lemma ImportHasNoText(t: RevType, arg: string, now: Tm)
    ensures t == RevValid ==> TextReadable(t, arg, now)
  {
  }

  lemma PhaseLoadable(env: Env, db: Db, serial: Option<int>, step: Step)
    requires db.Indexed() && AllGood(db.rows) && IsPhase(step) && StepOk(env, step)
    ensures var out := Phase(env, db, serial, step);
            out.Saves? ==> (AllLoadable(env, out.db.rows) <==> AllLoadable(env, db.rows) && !Spoils(env, db, step))
    ensures Spoils(env, db, step) ==> Phase(env, db, serial, step).Saves?
  {
    hide Db.Indexed, AllLoadable, AllGood, UpdateRows, Revoke, RevokeAccepted, Batch;
    hide GoodExpiry, TextReadable, SerialText;
    match step {
      case DoUpdate(now) =>
        if UpdateRows(env, db.rows, now).0 >= 0 { UpdateLoadable(env, db.rows, now); }
      case Issue(source, reqs, commit) =>
        var first := Serials.First(serial, source);
        IssueOk(env, step);
        if first.Some? && Batch(db, first.value, reqs).ok { IssuedLoadable(env, db, first.value, reqs); }
      case ImportOrRevoke(cert, t, arg, now) =>
        RevokeOutcome(env, db, cert, t, arg, now);
        if RevokeAccepted(env, db, cert, t, arg, now) { RevokeLoadable(env, db, cert, t, arg, now); }
    }
  }

  // A step spoils a file that can be loaded exactly if it is a spoiling one, and none repairs one that cannot.
  lemma NextLoadable(env: Env, unique: bool, sys: Sys, step: Step)
    requires Inv(env, unique, sys) && StepOk(env, step)
    ensures AllLoadable(env, Next(env, unique, sys, step).rows) <==>
            AllLoadable(env, sys.rows) && !SpoilingStep(env, sys, step)
  {
    hide TableOk, Db.Indexed, Save, Load, AllGood, AllLoadable, StepOk, Phase, Spoils;
    if sys.mem.Some? && !step.Start? && !step.Stop? {
      OkIsPhase(env, step);
      TableGood(unique, sys.rows);
      PhaseLoadable(env, sys.mem.value, sys.serial, step);
    }
  }

  // -------------------------------------------------------------------------
  // Whole runs, from an empty index file.

  function NewCa(serial: Option<int>): Sys
  {
    Sys([], serial, None)
  }

  ghost predicate StepsOk(env: Env, steps: seq<Step>)
  {
    forall i :: 0 <= i < |steps| ==> StepOk(env, steps[i])
  }

  ghost function Run(env: Env, unique: bool, sys: Sys, steps: seq<Step>): (sys': Sys)
    requires StepsOk(env, steps)
    decreases |steps|
  {
    if steps == [] then sys
    else Next(env, unique, Run(env, unique, sys, steps[..|steps| - 1]), steps[|steps| - 1])
  }

  lemma {:induction false} RunInv(env: Env, unique: bool, sys: Sys, steps: seq<Step>)
    requires Inv(env, unique, sys) && StepsOk(env, steps)
    ensures Inv(env, unique, Run(env, unique, sys, steps))
    ensures Evolves(sys.rows, Run(env, unique, sys, steps).rows)
    decreases |steps|
  {
    hide Inv, Evolves, Next, StepOk;
    if steps == [] {
      EvolvesRefl(sys.rows);
    } else {
      var before := steps[..|steps| - 1];
      var sys1 := Run(env, unique, sys, before);
      RunInv(env, unique, sys, before);
      NextInv(env, unique, sys1, steps[|steps| - 1]);
      EvolvesTransitive(sys.rows, sys1.rows, Run(env, unique, sys, steps).rows);
    }
  }

  // Step i of a run is a spoiling one.
  ghost predicate SpoilsAt(env: Env, unique: bool, sys: Sys, steps: seq<Step>, i: nat)
    requires StepsOk(env, steps) && i < |steps|
  {
    SpoilingStep(env, Run(env, unique, sys, steps[..i]), steps[i])
  }

  ghost predicate NoneSpoils(env: Env, unique: bool, sys: Sys, steps: seq<Step>)
    requires StepsOk(env, steps)
  {
    forall i :: 0 <= i < |steps| ==> !SpoilsAt(env, unique, sys, steps, i)
  }

  lemma NoneSpoilsLast(env: Env, unique: bool, sys: Sys, steps: seq<Step>)
    requires StepsOk(env, steps) && steps != []
    ensures var n := |steps| - 1;
            NoneSpoils(env, unique, sys, steps) <==>
            NoneSpoils(env, unique, sys, steps[..n]) && !SpoilingStep(env, Run(env, unique, sys, steps[..n]), steps[n])
  {
    hide StepOk, Run, SpoilingStep;
    var n := |steps| - 1;
    forall i | 0 <= i < n
      ensures SpoilsAt(env, unique, sys, steps, i) <==> SpoilsAt(env, unique, sys, steps[..n], i)
    {
      assert steps[..n][..i] == steps[..i];
    }
    assert SpoilsAt(env, unique, sys, steps, n) <==> SpoilingStep(env, Run(env, unique, sys, steps[..n]), steps[n]);
    hide SpoilsAt;
  }

  lemma {:induction false} RunLoadable(env: Env, unique: bool, sys: Sys, steps: seq<Step>)
    requires Inv(env, unique, sys) && AllLoadable(env, sys.rows) && StepsOk(env, steps)
    ensures AllLoadable(env, Run(env, unique, sys, steps).rows) <==> NoneSpoils(env, unique, sys, steps)
    decreases |steps|
  {
    hide Inv, AllLoadable, Next, StepOk, SpoilingStep;
    if steps != [] {
      var before := steps[..|steps| - 1];
      RunLoadable(env, unique, sys, before);
      RunInv(env, unique, sys, before);
      NextLoadable(env, unique, Run(env, unique, sys, before), steps[|steps| - 1]);
      NoneSpoilsLast(env, unique, sys, steps);
      hide NoneSpoils;
    }
  }

  lemma NewCaOk(env: Env, unique: bool, serial: Option<int>)
    ensures Inv(env, unique, NewCa(serial)) && AllLoadable(env, [])
  {
  }

  // After any steps, no two saved rows have the same serial number and, with unique subjects, no two valid ones have
  // the same subject; the next load indexes exactly those rows, or fails over an expiry date or a revocation text.
  lemma EveryRunIsSound(env: Env, unique: bool, serial: Option<int>, steps: seq<Step>)
    requires StepsOk(env, steps)
    ensures var rows := Run(env, unique, NewCa(serial), steps).rows;
            && SerialNumbersDistinct(rows) && (unique ==> ValidSubjectsDistinct(rows))
            && Load(env, Save(rows), unique)
               == (if AllLoadable(env, rows) then Some(IndexOf(rows, unique)) else None)
  {
    NewCaOk(env, unique, serial);
    RunInv(env, unique, NewCa(serial), steps);
    var rows := Run(env, unique, NewCa(serial), steps).rows;
    hide Load, Run, Save, AllGood;
    LoadedOk(env, unique, rows);
    TableNumbers(unique, rows);
  }

  // The file passes the tool's own load check exactly if no step spoiled it: every accepted revocation was made in the
  // years 1950 to 2049 with an argument that a line can hold, and every certificate that was added had a good expiry.
  lemma EveryRunLoadsIff(env: Env, unique: bool, serial: Option<int>, steps: seq<Step>)
    requires StepsOk(env, steps)
    ensures Load(env, Save(Run(env, unique, NewCa(serial), steps).rows), unique).Some? <==>
            NoneSpoils(env, unique, NewCa(serial), steps)
  {
    NewCaOk(env, unique, serial);
    var sys := Run(env, unique, NewCa(serial), steps);
    RunInv(env, unique, NewCa(serial), steps);
    hide StepOk, Run, Load, Save, NoneSpoils, TableOk, AllLoadable;
    RunLoadable(env, unique, NewCa(serial), steps);
    LoadedOk(env, unique, sys.rows);
  }

  // Distinct as numbers, not only as index keys.
  ghost predicate SerialNumbersDistinct(rows: seq<Row>)
  {
    && (forall i :: 0 <= i < |rows| ==> SerialOk(rows[i].serial))
    && (forall i, j :: 0 <= i < j < |rows| ==> SerialValue(rows[i].serial) != SerialValue(rows[j].serial))
  }

  lemma TableNumbers(unique: bool, rows: seq<Row>)
    requires TableOk(unique, rows)
    ensures SerialNumbersDistinct(rows)
  {
    hide SerialOk, SerialValue, SerialText, Key;
    assert forall i :: 0 <= i < |rows| ==> GoodRow(rows[i]);
    forall i, j | 0 <= i < j < |rows| ensures SerialValue(rows[i].serial) != SerialValue(rows[j].serial) {
      assert Key(rows[i].serial) != Key(rows[j].serial);
    }
  }

  // Between any two moments of a run, saved rows are never removed or reordered, keep their
  // serial, subject and expiry, and only move from valid to expired and from unrevoked to revoked.
  lemma EveryRunEvolves(env: Env, unique: bool, serial: Option<int>, before: seq<Step>, after: seq<Step>)
    requires StepsOk(env, before) && StepsOk(env, after)
    ensures StepsOk(env, before + after)
    ensures Evolves(Run(env, unique, NewCa(serial), before).rows, Run(env, unique, NewCa(serial), before + after).rows)
  {
    hide StepOk, Inv, Evolves;
    NewCaOk(env, unique, serial);
    RunInv(env, unique, NewCa(serial), before);
    RunConcat(env, unique, NewCa(serial), before, after);
    RunInv(env, unique, Run(env, unique, NewCa(serial), before), after);
  }

  lemma {:induction false} RunConcat(env: Env, unique: bool, sys: Sys, a: seq<Step>, b: seq<Step>)
    requires StepsOk(env, a) && StepsOk(env, b)
    ensures StepsOk(env, a + b)
    ensures Run(env, unique, sys, a + b) == Run(env, unique, Run(env, unique, sys, a), b)
    decreases |b|
  {
    hide StepOk, Next;
    if b == [] {
      assert a + b == a;
    } else {
      var b' := b[..|b| - 1];
      RunConcat(env, unique, sys, a, b');
      assert (a + b)[..|a + b| - 1] == a + b';
    }
  }

  // -------------------------------------------------------------------------
  // Single phases.

  // The batch of an issue phase goes through and is to be written.
  predicate Writes(db: Db, serial: Option<int>, source: Serials.Source, reqs: seq<Request>, commit: bool)
  {
    && Serials.First(serial, source).Some? && Batch(db, Serials.First(serial, source).value, reqs).ok
    && commit && Granted(reqs) != []
  }

  // An issue phase without a serial, with a hard error, without a certificate or without the commit leaves both files
  // alone, and ends the process unless there was just nothing to write; otherwise the index gets exactly the rows
  // issued, and the serial file the number after the last one, unless the configuration asks for random serials.  The
  // option for random serials writes the serial file.
  lemma IssueOutcome(env: Env, unique: bool, sys: Sys, source: Serials.Source, reqs: seq<Request>, commit: bool)
    requires sys.mem.Some? && sys.mem.value.Indexed()
    ensures var db, sys' := sys.mem.value, Next(env, unique, sys, Issue(source, reqs, commit));
            if Writes(db, sys.serial, source, reqs, commit) then
              var n, g := Serials.First(sys.serial, source).value, Granted(reqs);
              && sys'.rows == db.rows + IssuedRows(n, g)
              && sys'.mem.Some? && sys'.mem.value.rows == db.rows + IssuedRows(n, g)
              && sys'.serial == (if source.ByConfig? then sys.serial else Some(n + |g|))
            else
              && sys'.rows == sys.rows && sys'.serial == sys.serial
              && (sys'.mem.Some? <==>
                    && Serials.First(sys.serial, source).Some? && Granted(reqs) == []
                    && AllFit(db, Serials.First(sys.serial, source).value, reqs))
              && (sys'.mem.Some? ==> sys'.mem.value.rows == db.rows)
  {
    hide Db.Indexed, Save, IssuedRows, Granted, Batch, AllFit;
    var first := Serials.First(sys.serial, source);
    if first.Some? { BatchSucceedsIff(sys.mem.value, first.value, reqs); }
    if first.Some? && Batch(sys.mem.value, first.value, reqs).ok {
      BatchIssues(sys.mem.value, first.value, reqs);
      IssuedSize(first.value, Granted(reqs));
    }
  }

  lemma IssuedSize(serial: int, g: seq<Request>)
    requires forall i :: 0 <= i < |g| ==> g[i].Wanted?
    ensures |IssuedRows(serial, g)| == |g|
  {
  }

  // The serial numbers of rows.
  function Numbers(rows: seq<Row>): seq<int>
    requires forall i :: 0 <= i < |rows| ==> SerialOk(rows[i].serial)
  {
    seq(|rows|, i requires 0 <= i < |rows| => SerialValue(rows[i].serial))
  }

  // The renames of an undisturbed run leave the files that the issue phase is to leave.  Of the serials in the index,
  // some were taken from the serial file (`filed`); those of the batch join them if they were.
  lemma IssueIsCommit(env: Env, unique: bool, sys: Sys, source: Serials.Source, reqs: seq<Request>,
                      filed: seq<int>, st: Serials.Process)
    requires Inv(env, unique, sys) && sys.mem.Some? && StepOk(env, Issue(source, reqs, true))
    requires Writes(sys.mem.value, sys.serial, source, reqs, true) && SerialNumbersDistinct(sys.mem.value.rows)
    requires forall n :: n in filed ==> n in Numbers(sys.mem.value.rows)
    requires st.pc.Idle? && st.fs.serial == sys.serial && st.fs.index == Some(filed)
    ensures var sys', h := Next(env, unique, sys, Issue(source, reqs, true)),
                           Serials.Issues(source, |Granted(reqs)|, unique);
            && Serials.PlanOf(st.fs, h).Some? && SerialNumbersDistinct(sys'.rows)
            && var end := Commit.LeftAlone(Serials.Next(st, h), Commit.Steps(Serials.PlanOf(st.fs, h).value));
               var n := Serials.First(sys.serial, source).value;
               && end.pc.Idle? && end.fs.serial == sys'.serial
               && end.fs.index == Some(filed + if Serials.Filed(source) then Serials.Range(n, |Granted(reqs)|) else [])
               && forall x :: x in end.fs.index.value ==> x in Numbers(sys'.rows)
  {
    hide Inv, Writes, Save, Batch, Granted, Db.Indexed, StepOk, Next, IssuedRows, SerialOk, SerialValue;
    hide Commit.LeftAlone, Serials.Next, Serials.Range, Numbers;
    WritesSerial(sys, source, reqs);
    var n, g := Serials.First(sys.serial, source).value, Granted(reqs);
    var h := Serials.Issues(source, |g|, unique);
    Serials.UndisturbedRun(st, h);
    IssuedOnDisk(env, unique, sys, source, reqs);
    IssuedNumbers(n, g);
    IssuedSize(n, g);
    NumbersAppend(sys.mem.value.rows, IssuedRows(n, g));
    var after := filed + if Serials.Filed(source) then Serials.Range(n, |g|) else [];
    forall x | x in after ensures x in Numbers(Next(env, unique, sys, Issue(source, reqs, true)).rows) {
      assert x in filed || x in Serials.Range(n, |g|);
    }
  }

  lemma WritesSerial(sys: Sys, source: Serials.Source, reqs: seq<Request>)
    requires sys.mem.Some? && Writes(sys.mem.value, sys.serial, source, reqs, true)
    ensures Serials.First(sys.serial, source).Some? && Granted(reqs) != []
  {
  }

  lemma IssuedOnDisk(env: Env, unique: bool, sys: Sys, source: Serials.Source, reqs: seq<Request>)
    requires Inv(env, unique, sys) && sys.mem.Some? && StepOk(env, Issue(source, reqs, true))
    requires Writes(sys.mem.value, sys.serial, source, reqs, true)
    ensures var sys', n, g := Next(env, unique, sys, Issue(source, reqs, true)),
                              Serials.First(sys.serial, source).value, Granted(reqs);
            && sys'.rows == sys.mem.value.rows + IssuedRows(n, g)
            && sys'.serial == (if source.ByConfig? then sys.serial else Some(n + |g|))
            && SerialNumbersDistinct(sys'.rows)
  {
    hide Save, TableOk, Db.Indexed, Granted, Batch, IssuedRows, Next, Writes, StepOk;
    WritesSerial(sys, source, reqs);
    IssueOutcome(env, unique, sys, source, reqs, true);
    NextInv(env, unique, sys, Issue(source, reqs, true));
    TableNumbers(unique, Next(env, unique, sys, Issue(source, reqs, true)).rows);
  }

  lemma NumbersAppend(a: seq<Row>, b: seq<Row>)
    requires forall i :: 0 <= i < |a + b| ==> SerialOk((a + b)[i].serial)
    requires forall i :: 0 <= i < |a| ==> SerialOk(a[i].serial)
    requires forall i :: 0 <= i < |b| ==> SerialOk(b[i].serial)
    ensures Numbers(a + b) == Numbers(a) + Numbers(b)
  {
    hide SerialOk, SerialValue;
  }

  lemma IssuedNumbers(serial: int, g: seq<Request>)
    requires forall i :: 0 <= i < |g| ==> g[i].Wanted?
    ensures forall i :: 0 <= i < |g| ==> SerialOk(IssuedRows(serial, g)[i].serial)
    ensures Numbers(IssuedRows(serial, g)) == Serials.Range(serial, |g|)
  {
    var rows := IssuedRows(serial, g);
    forall i | 0 <= i < |g| ensures SerialOk(rows[i].serial) && SerialValue(rows[i].serial) == serial + i {
      assert rows[i].serial == SerialText(serial + i);
      SerialTextCanonical(serial + i);
    }
    hide SerialOk, SerialValue, IssuedRows;
  }

  predicate HasNumber(row: Row, n: int)
  {
    SerialOk(row.serial) && SerialValue(row.serial) == n
  }

  // A valid row of a certificate; the serial stands for an empty subject.
  predicate IsValidRow(row: Row, n: int, subject: string, notAfter: string)
  {
    && HasNumber(row, n)
    && row.typ == "V" && row.exp == notAfter && row.rev == "" && row.file == "unknown"
    && row.name == if subject == "" then row.serial else subject
  }

  lemma NewRowIsValid(cert: Certificate)
    ensures IsValidRow(cert.NewRow(), cert.serial, cert.subject, cert.notAfter)
  {
    SerialTextCanonical(cert.serial);
    hide SerialText, SerialOk, SerialValue;
  }

  // A batch that is written starts at the number in the serial file; with the option -create_serial it does if there is
  // a serial file, and otherwise at the number that the file is created with; random serials start where they are told.
  // It adds a valid row for each request granted, with consecutive numbers, and leaves the number after the last one in
  // the serial file, unless the configuration asks for random serials.
  lemma IssueTakesSerials(env: Env, unique: bool, sys: Sys, source: Serials.Source, reqs: seq<Request>)
    requires sys.mem.Some? && sys.mem.value.Indexed() && sys.mem.value.rows == sys.rows
    requires Next(env, unique, sys, Issue(source, reqs, true)).rows != sys.rows
    ensures source.Live? ==> sys.serial.Some?
    ensures var sys', k := Next(env, unique, sys, Issue(source, reqs, true)), |Granted(reqs)|;
            var s := match source
              case Live => sys.serial.value
              case Created(n) => if sys.serial.Some? then sys.serial.value else n
              case ByOption(n) => n
              case ByConfig(n) => n;
            Issues(sys.rows, sys'.rows, s, Granted(reqs))
            && sys'.serial == if source.ByConfig? then sys.serial else Some(s + k)
  {
    hide Db.Indexed, Batch, Granted, Next, Issues;
    IssueOutcome(env, unique, sys, source, reqs, true);
    IssuedAre(sys.rows, Serials.First(sys.serial, source).value, Granted(reqs));
  }

  ghost predicate Issues(rows: seq<Row>, rows': seq<Row>, s: int, g: seq<Request>)
    requires forall i :: 0 <= i < |g| ==> g[i].Wanted?
  {
    && |rows'| == |rows| + |g| && rows <= rows'
    && forall i :: 0 <= i < |g| ==> IsValidRow(rows'[|rows| + i], s + i, g[i].subject, g[i].notAfter)
  }

  lemma IssuedAre(rows: seq<Row>, s: int, g: seq<Request>)
    requires forall i :: 0 <= i < |g| ==> g[i].Wanted?
    ensures Issues(rows, rows + IssuedRows(s, g), s, g)
  {
    hide IsValidRow, Certificate.NewRow;
    forall i | 0 <= i < |g| ensures IsValidRow(IssuedRows(s, g)[i], s + i, g[i].subject, g[i].notAfter) {
      NewRowIsValid(Certificate(s + i, g[i].subject, g[i].notAfter));
    }
  }

  // A start loads the table, or ends at once; a stop ends it; without a process nothing else happens.
  lemma StartLoads(env: Env, unique: bool, sys: Sys, step: Step)
    requires TableOk(false, sys.rows) && (step.ImportOrRevoke? ==> step.clock.Valid())
    ensures Next(env, unique, sys, Start) ==
            Sys(sys.rows, sys.serial,
                if AllLoadable(env, sys.rows) && (unique ==> ValidSubjectsDistinct(sys.rows))
                then Some(IndexOf(sys.rows, unique)) else None)
    ensures Next(env, unique, sys, Stop) == Sys(sys.rows, sys.serial, None)
    ensures sys.mem.None? && !step.Start? ==> Next(env, unique, sys, step) == sys
  {
    hide AllLoadable, ValidSubjectsDistinct, IndexOf, TableOk, Phase, Load;
    SaveLoad(env, unique, sys.rows);
  }

  // An update ends the process, and changes nothing, if a valid row has an unreadable expiry date; otherwise the file
  // and the table in memory get the expired rows.
  lemma UpdateStepDoes(env: Env, unique: bool, sys: Sys, now: int)
    requires sys.mem.Some? && sys.mem.value.rows == sys.rows
    ensures var sys' := Next(env, unique, sys, DoUpdate(now));
            if exists i :: 0 <= i < |sys.rows| && UnreadableExpiry(env, sys.rows[i]) then
              sys' == Sys(sys.rows, sys.serial, None)
            else
              && sys'.serial == sys.serial && sys'.mem.Some? && sys'.mem.value.rows == sys'.rows
              && |sys'.rows| == |sys.rows|
              && forall i :: 0 <= i < |sys.rows| ==> ExpiresTo(env, sys.rows[i], now, sys'.rows[i])
  {
    var k := FirstUnreadable(env, sys.rows);
    UpdateExpires(env, sys.rows, now, k);
    var (cnt, rows') := UpdateRows(env, sys.rows, now);
    if cnt == 0 { NoChanges(sys.rows, rows'); }
    hide UpdateRows, ExpiresTo, UnreadableExpiry;
  }

  lemma FirstUnreadable(env: Env, rows: seq<Row>) returns (k: nat)
    ensures k <= |rows| && (k < |rows| ==> UnreadableExpiry(env, rows[k]))
    ensures forall i :: 0 <= i < k ==> !UnreadableExpiry(env, rows[i])
  {
    k := 0;
    while k < |rows| && !UnreadableExpiry(env, rows[k])
      invariant k <= |rows| && forall i :: 0 <= i < k ==> !UnreadableExpiry(env, rows[i])
    {
      k := k + 1;
    }
  }

  lemma {:induction false} NoChanges(rows: seq<Row>, rows': seq<Row>)
    requires |rows| == |rows'| && Changes(rows, rows') == 0
    ensures rows' == rows
  {
    if rows != [] {
      NoChanges(rows[1..], rows'[1..]);
      assert rows == [rows[0]] + rows[1..] && rows' == [rows'[0]] + rows'[1..];
    }
  }

  // A revocation that is refused ends the process and leaves the files alone; one that is accepted puts there exactly
  // one row for the serial, revoked, whether or not the certificate was known.
  lemma RevokeStepOutcome(env: Env, unique: bool, sys: Sys, cert: Certificate, t: RevType, arg: string, now: Tm)
    requires sys.mem.Some? && sys.mem.value.Indexed() && t != RevValid && now.Valid()
    ensures var db, sys' := sys.mem.value, Next(env, unique, sys, ImportOrRevoke(cert, t, arg, now));
            if RevokeAccepted(env, db, cert, t, arg, now) then
              var s := MakeRevocation(env, t, arg, now).value;
              && sys'.serial == sys.serial && sys'.mem.Some? && sys'.mem.value.rows == sys'.rows
              && exists i: nat :: RevokesOne(RevokeBase(db, cert), sys'.rows, SerialText(cert.serial), i, s)
            else sys' == Sys(sys.rows, sys.serial, None)
  {
    var db := sys.mem.value;
    assert RevokeAccepted(env, db, cert, t, arg, now) ==> MakeRevocation(env, t, arg, now).Some?;
    hide Db.Indexed, Next, Revoke, RevokeAccepted, RevokesOne, MakeRevocation, SerialText, RevokeBase;
    RevokeOutcome(env, db, cert, t, arg, now);
    RevokeNext(env, unique, sys, cert, t, arg, now);
  }

  lemma RevokeNext(env: Env, unique: bool, sys: Sys, cert: Certificate, t: RevType, arg: string, now: Tm)
    requires now.Valid() && sys.mem.Some?
    ensures var (ok, db') := Revoke(env, sys.mem.value, cert, t, arg, now);
            Next(env, unique, sys, ImportOrRevoke(cert, t, arg, now)) ==
            if ok then Sys(db'.rows, sys.serial, Some(db')) else Sys(sys.rows, sys.serial, None)
  {
    hide Revoke;
  }

  lemma KeyIsNumber(row: Row, n: int)
    requires GoodRow(row)
    ensures Key(row.serial) == Key(SerialText(n)) <==> HasNumber(row, n)
  {
    hide SerialText, SerialOk, SerialValue, Key;
    if Key(row.serial) == Key(SerialText(n)) { KeyGivesValue(row.serial, n); }
  }

  // The index finds the row with a number, and there is at most one.
  lemma FoundIsNumber(db: Db, n: int)
    requires AllGood(db.rows) && db.Indexed()
    ensures db.FindSerial(SerialText(n)).None? ==> forall i :: 0 <= i < |db.rows| ==> !HasNumber(db.rows[i], n)
    ensures db.FindSerial(SerialText(n)).Some? ==>
              var j := db.FindSerial(SerialText(n)).value;
              j < |db.rows| && forall i :: 0 <= i < |db.rows| ==> (HasNumber(db.rows[i], n) <==> i == j)
  {
    forall i | 0 <= i < |db.rows| ensures Key(db.rows[i].serial) == Key(SerialText(n)) <==> HasNumber(db.rows[i], n) {
      assert GoodRow(db.rows[i]);
      KeyIsNumber(db.rows[i], n);
    }
    hide GoodRow, SerialText, HasNumber, Key;
  }

  // A certificate that was not there is added, as a valid row.
  ghost predicate Adds(rows: seq<Row>, rows': seq<Row>, cert: Certificate)
  {
    && (forall i :: 0 <= i < |rows| ==> !HasNumber(rows[i], cert.serial))
    && |rows'| == |rows| + 1 && rows'[..|rows|] == rows
    && IsValidRow(rows'[|rows|], cert.serial, cert.subject, cert.notAfter)
  }

  // The one row with the number, which was not revoked, is revoked with the text s, and nothing else changes.
  ghost predicate Revokes(rows: seq<Row>, rows': seq<Row>, n: int, s: string, j: int)
  {
    && 0 <= j < |rows| && (forall i :: 0 <= i < |rows| ==> (HasNumber(rows[i], n) <==> i == j))
    && rows[j].Type() != TYPE_REV && rows' == rows[j := rows[j].(typ := "R", rev := s)]
  }

  // What an accepted import or revocation does to the rows, said of their numbers: an import adds the certificate; a
  // revocation revokes its row, and adds the certificate before if it was not there.
  lemma RevokeDoes(env: Env, db: Db, cert: Certificate, t: RevType, arg: string, now: Tm)
    requires db.Indexed() && AllGood(db.rows) && '\n' !in cert.subject && now.Valid()
    requires RevokeAccepted(env, db, cert, t, arg, now)
    ensures var rows' := Revoke(env, db, cert, t, arg, now).1.rows;
            if t == RevValid then Adds(db.rows, rows', cert)
            else
              var s := MakeRevocation(env, t, arg, now).value;
              || (exists j :: Revokes(db.rows, rows', cert.serial, s, j))
              || exists base, j :: Adds(db.rows, base, cert) && Revokes(base, rows', cert.serial, s, j)
  {
    assert t != RevValid ==> MakeRevocation(env, t, arg, now).Some?;
    assert t == RevValid ==> db.FindSerial(SerialText(cert.serial)).None?;
    var base, rows' := RevokeBase(db, cert), Revoke(env, db, cert, t, arg, now).1.rows;
    FoundIsNumber(db, cert.serial);
    NewRowIsValid(cert);
    NewRowGood(cert);
    assert AllGood(base) by { hide GoodRow, SerialText; }
    assert db.FindSerial(SerialText(cert.serial)).None? ==> Adds(db.rows, base, cert) by { hide IsValidRow, HasNumber; }
    hide Revoke, RevokeAccepted, MakeRevocation, Db.Indexed, SerialText, GoodRow, Adds, HasNumber;
    RevokeOutcome(env, db, cert, t, arg, now);
    if t != RevValid {
      var s := MakeRevocation(env, t, arg, now).value;
      var i: nat :| RevokesOne(base, rows', SerialText(cert.serial), i, s);
      RevokesByNumber(base, rows', cert.serial, i, s);
      assert Revokes(base, rows', cert.serial, s, i);
    }
  }

  lemma RevokesByNumber(rows: seq<Row>, rows': seq<Row>, n: int, j: nat, s: string)
    requires AllGood(rows) && RevokesOne(rows, rows', SerialText(n), j, s)
    ensures Revokes(rows, rows', n, s, j)
  {
    assert GoodRow(rows[j]);
    RevokedGood(rows[j], s);
    forall i | 0 <= i < |rows| ensures HasNumber(rows[i], n) <==> i == j {
      assert GoodRow(rows[i]);
      KeyIsNumber(rows[i], n);
      hide GoodRow, SerialText, Key;
      assert i != j ==> rows'[i] == rows[i];
    }
  }

  // The argument of a revocation that is accepted.
  predicate ArgumentOk(env: Env, t: RevType, arg: string)
  {
    match t
    case RevValid => true
    case RevNone => true
    case RevReason =>
      || SameText(arg, "unspecified") || SameText(arg, "keyCompromise") || SameText(arg, "CACompromise")
      || SameText(arg, "affiliationChanged") || SameText(arg, "superseded") || SameText(arg, "cessationOfOperation")
      || SameText(arg, "certificateHold") || SameText(arg, "removeFromCRL")
    case RevHold => env.oid(arg)
    case RevKeyTime => env.gentime(arg)
    case RevCaTime => env.gentime(arg)
  }

  lemma ArgumentMade(env: Env, t: RevType, arg: string, now: Tm)
    requires now.Valid()
    ensures MakeRevocation(env, t, arg, now).Some? <==> ArgumentOk(env, t, arg)
  {
    var i := ReasonIndex(arg, 8);
    hide ClockText, SameText, ReasonIndex;
  }

  // In a table that was just loaded, a revocation goes through exactly if its argument is right and the certificate is
  // there under the same subject and not yet revoked, or is not there and clashes with no valid row; an import exactly
  // in the latter case.
  lemma AcceptedIff(env: Env, rows: seq<Row>, unique: bool, cert: Certificate, t: RevType, arg: string, now: Tm)
    requires TableOk(unique, rows) && now.Valid()
    ensures RevokeAccepted(env, IndexOf(rows, unique), cert, t, arg, now) <==>
            && ArgumentOk(env, t, arg)
            && if exists i :: 0 <= i < |rows| && HasNumber(rows[i], cert.serial)
               then t != RevValid && exists i :: 0 <= i < |rows| && Revocable(rows[i], cert)
               else unique ==> forall i :: 0 <= i < |rows| && rows[i].typ == "V" ==> rows[i].name != cert.Name()
  {
    var db := IndexOf(rows, unique);
    IndexOfIndexed(rows, unique);
    ArgumentMade(env, t, arg, now);
    FoundIsNumber(db, cert.serial);
    FoundIsValid(rows, unique, cert.Name());
    hide ArgumentOk, MakeRevocation, HasNumber, SerialText, IndexOf, TableOk, Db.FindSerial, Db.FindName, Db.Indexed;
    var j := db.FindSerial(SerialText(cert.serial));
    if j.Some? { assert GoodType(rows[j.value]) by { TableTypes(unique, rows, j.value); } }
  }

  predicate GoodType(row: Row)
  {
    row.Type() == TYPE_REV <==> row.typ == "R"
  }

  lemma TableTypes(unique: bool, rows: seq<Row>, i: nat)
    requires TableOk(unique, rows) && i < |rows|
    ensures GoodType(rows[i])
  {
    assert GoodRow(rows[i]);
  }

  predicate Revocable(row: Row, cert: Certificate)
  {
    HasNumber(row, cert.serial) && row.name == cert.Name() && row.typ != "R"
  }

  lemma FoundIsValid(rows: seq<Row>, unique: bool, name: string)
    requires TableOk(unique, rows) && IndexOf(rows, unique).Indexed()
    ensures IndexOf(rows, unique).FindName(name).None? <==>
            (unique ==> forall i :: 0 <= i < |rows| && rows[i].typ == "V" ==> rows[i].name != name)
  {
    var db := IndexOf(rows, unique);
    if unique {
      if name in NameMap(rows) {
        NameMapValid(rows, name);
        assert GoodRow(rows[NameMap(rows)[name]]);
      }
      forall i | 0 <= i < |rows| && rows[i].typ == "V" ensures rows[i].name in db.byName {
        assert rows[i].Type() == TYPE_VAL;
      }
    }
  }

  // After an accepted import or revocation, the next run can load the file exactly if it could be loaded before, the
  // certificate was known or has a good expiry date, and the text of a revocation can be read again.
  lemma SpoilingLocksOut(env: Env, unique: bool, sys: Sys, cert: Certificate, t: RevType, arg: string, now: Tm)
    requires Inv(env, unique, sys) && sys.mem.Some? && StepOk(env, ImportOrRevoke(cert, t, arg, now))
    requires RevokeAccepted(env, sys.mem.value, cert, t, arg, now)
    ensures Load(env, Save(Next(env, unique, sys, ImportOrRevoke(cert, t, arg, now)).rows), unique).Some? <==>
            && Load(env, Save(sys.rows), unique).Some?
            && (sys.mem.value.FindSerial(SerialText(cert.serial)).None? ==> GoodExpiry(env, cert.notAfter))
            && (t != RevValid ==> 1950 <= now.year < 2050 && (Records(t) ==> PlainField(arg)))
  {
    hide TableOk, Db.Indexed, RevokeAccepted, Next, Load, Save, AllLoadable, GoodExpiry, PlainField, SerialText;
    var step := ImportOrRevoke(cert, t, arg, now);
    NextInv(env, unique, sys, step);
    NextLoadable(env, unique, sys, step);
    LoadedOk(env, unique, sys.rows);
    LoadedOk(env, unique, Next(env, unique, sys, step).rows);
  }

  const BAD_EXPIRY := "991331000000Z"

  // A certificate that was made elsewhere and expires in a thirteenth month is added to a new database or revoked
  // there.  The next run refuses the file.
  lemma BadExpiryLocksOut(env: Env, unique: bool, serial: Option<int>, t: RevType, arg: string, now: Tm)
    requires now.Valid() && env.moment(BAD_EXPIRY).None? && (t != RevValid ==> MakeRevocation(env, t, arg, now).Some?)
    ensures var sys := Sys([], serial, Some(IndexOf([], unique)));
            var sys' := Next(env, unique, sys, ImportOrRevoke(Certificate(1, "/CN=a", BAD_EXPIRY), t, arg, now));
            && Load(env, Save(sys.rows), unique) == sys.mem
            && |sys'.rows| == 1 && sys'.rows[0].exp == BAD_EXPIRY
            && Load(env, Save(sys'.rows), unique) == None
  {
    var sys, cert := Sys([], serial, Some(IndexOf([], unique))), Certificate(1, "/CN=a", BAD_EXPIRY);
    NewCaOk(env, unique, serial);
    IndexOfIndexed([], unique);
    AcceptedAsNew(env, unique, cert, t, arg, now);
    assert '\n' !in cert.subject && !GoodExpiry(env, BAD_EXPIRY);
    assert Inv(env, unique, sys) && StepOk(env, ImportOrRevoke(cert, t, arg, now));
    hide *;
    LoadedOk(env, unique, []);
    SpoilingLocksOut(env, unique, sys, cert, t, arg, now);
    RevokeNext(env, unique, sys, cert, t, arg, now);
    OnlyRow(env, unique, cert, t, arg, now);
  }

  // The first certificate of a database is accepted.
  lemma AcceptedAsNew(env: Env, unique: bool, cert: Certificate, t: RevType, arg: string, now: Tm)
    requires now.Valid() && (t != RevValid ==> MakeRevocation(env, t, arg, now).Some?)
    ensures var db := IndexOf([], unique);
            db.FindSerial(SerialText(cert.serial)).None? && RevokeAccepted(env, db, cert, t, arg, now)
  {
    hide SerialText, MakeRevocation, Key;
  }

  lemma OnlyRow(env: Env, unique: bool, cert: Certificate, t: RevType, arg: string, now: Tm)
    requires now.Valid() && (t != RevValid ==> MakeRevocation(env, t, arg, now).Some?)
    ensures var (ok, db') := Revoke(env, IndexOf([], unique), cert, t, arg, now);
            ok && |db'.rows| == 1 && db'.rows[0].exp == cert.notAfter
  {
    IndexOfIndexed([], unique);
    AcceptedAsNew(env, unique, cert, t, arg, now);
    hide SerialText, MakeRevocation, Key, Revoke, RevokeAccepted, Db.Indexed;
    RevokeOutcome(env, IndexOf([], unique), cert, t, arg, now);
  }

  const UNTYPED := Row("", "491231235959Z", "", "01", "unknown", "/CN=a")
  const UNTYPED_CERT := Certificate(1, "/CN=a", "491231235959Z")

  // A row that was entered by hand with an empty type can be loaded.  Revoking it costs it its expiry date, and the
  // next run refuses the file.
  lemma EmptyTypeLocksOut(env: Env, now: Tm)
    requires now.Valid() && env.moment(UNTYPED.exp).Some? && env.moment("").None?
    ensures Load(env, Save([UNTYPED]), false) == Some(IndexOf([UNTYPED], false))
    ensures var (ok, db') := Revoke(env, IndexOf([UNTYPED], false), UNTYPED_CERT, RevNone, "", now);
            && ok && db'.rows == [UNTYPED.(typ := "R", exp := "", rev := ClockText(now))]
            && Load(env, Save(db'.rows), false) == None
  {
    hide SerialText, SerialOk, ClockText, Revoke, IndexOf, Load, Save, Unpack, PlainField;
    UntypedPlain(now);
    RevokeOne(env, UNTYPED, UNTYPED_CERT, now);
    LoadOne(env, UNTYPED);
    LoadOne(env, RevokedRow(UNTYPED, ClockText(now)));
  }

  lemma UntypedPlain(now: Tm)
    requires now.Valid()
    ensures PlainField("") && PlainField("R") && PlainField(UNTYPED.exp) && PlainField(UNTYPED.file)
    ensures '\n' !in UNTYPED.name && PlainField(ClockText(now)) && PlainField("01")
    ensures SerialText(1) == "01" && SerialOk("01")
  {
    hide ClockText, SerialText, SerialOk;
    ClockPlain(now);
    PlainFields();
    SerialTextCanonical(1);
    SerialTextPlain(1);
    OneText();
  }

  lemma PlainFields()
    ensures PlainField("") && PlainField("R") && PlainField(UNTYPED.exp) && PlainField(UNTYPED.file)
    ensures '\n' !in UNTYPED.name
  {
  }

  lemma OneText()
    ensures SerialText(1) == "01"
  {
    assert Bytes(0) == "" && Bytes(1) == "01";
  }

  // Revoking the only row, without a reason.
  lemma RevokeOne(env: Env, row: Row, cert: Certificate, now: Tm)
    requires now.Valid() && row.serial == SerialText(cert.serial) && row.name == cert.Name() && row.Type() != TYPE_REV
    ensures var (ok, db') := Revoke(env, IndexOf([row], false), cert, RevNone, "", now);
            ok && db'.rows == [RevokedRow(row, ClockText(now))]
  {
    hide SerialText, Key, ClockText;
    var db := IndexOf([row], false);
    assert [row][..0] == [];
    assert db.FindSerial(row.serial) == Some(0);
    assert MakeRevocation(env, RevNone, "", now) == Some(ClockText(now)) by {
      assert ClockText(now) + "" == ClockText(now);
    }
    hide MakeRevocation;
    assert db.rows[0 := RevokedRow(row, ClockText(now))] == [RevokedRow(row, ClockText(now))];
  }

  // Loading a file of one row.
  lemma LoadOne(env: Env, row: Row)
    requires PlainField(row.typ) && (row.typ != "" ==> row.typ[0] != '#') && '\n' !in row.name
    requires PlainField(row.exp) && PlainField(row.rev) && PlainField(row.serial) && PlainField(row.file)
    ensures Load(env, Save([row]), false) == if RowOk(env, row) then Some(IndexOf([row], false)) else None
  {
    hide RowOk;
    var f := Texts([row]);
    assert TxtDb.Readable(f[0]);
    TxtDb.WrittenRowsRoundTrip(f, DB_NUMBER);
    RowsOfTexts([row]);
  }
}
