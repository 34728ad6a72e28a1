// The database of the certificate authority (apps/ca.c, apps/lib/apps.c): rows of text with an
// index by serial number and, when subjects must be unique, an index by subject.
module CaDatabase {
  import opened Prelude
  import opened Hex
  import opened RevInfo
  import opened Time
  import TxtDb

  // The fields DB_type, DB_exp_date, DB_rev_date, DB_serial, DB_file and DB_name.
  datatype Row = Row(typ: string, exp: string, rev: string, serial: string, file: string, name: string)
  {
    // rrow[DB_type][0]
    function Type(): char { CharAt(typ, 0) }

    function Fields(): (f: TxtDb.Fields) ensures |f| == DB_NUMBER { [typ, exp, rev, serial, file, name] }

    // Equality of everything but the status.
    predicate SameCertificate(r: Row)
    {
      exp == r.exp && serial == r.serial && file == r.file && name == r.name
    }
  }

  const DB_NUMBER: nat := 6
  const TYPE_REV: char := 'R'
  const TYPE_EXP: char := 'E'
  const TYPE_VAL: char := 'V'

  function FromFields(f: TxtDb.Fields): Row
    requires |f| == DB_NUMBER
  {
    Row(f[0], f[1], f[2], f[3], f[4], f[5])
  }

  // A certificate, as far as the database is concerned.
  datatype Certificate = Certificate(serial: int, subject: string, notAfter: string)
  {
    // An empty subject is replaced by the serial number.
    function Name(): string { if subject == "" then SerialText(serial) else subject }

    function NewRow(): Row { Row("V", notAfter, "", SerialText(serial), "unknown", Name()) }
  }

  // -------------------------------------------------------------------------
  // The indexed table.

  // `byName` is kept only when subjects must be unique, and holds the rows that were valid
  // when they were indexed: editing the type of a row does not touch it.
  datatype Db = Db(rows: seq<Row>, unique: bool, bySerial: map<string, nat>, byName: map<string, nat>)
  {
    ghost predicate SerialIndexed()
    {
      && (forall i :: 0 <= i < |rows| ==> Key(rows[i].serial) in bySerial && bySerial[Key(rows[i].serial)] == i)
      && (forall k :: k in bySerial ==> bySerial[k] < |rows| && Key(rows[bySerial[k]].serial) == k)
    }

    ghost predicate NameIndexed()
    {
      unique ==>
        && (forall i :: 0 <= i < |rows| && rows[i].Type() == TYPE_VAL ==>
              rows[i].name in byName && byName[rows[i].name] == i)
        && (forall k :: k in byName ==> byName[k] < |rows| && rows[byName[k]].name == k)
    }

    ghost predicate Indexed()
    {
      SerialIndexed() && NameIndexed()
    }

    // TXT_DB_get_by_index for the two indexes.
    function FindSerial(serial: string): Option<nat>
    {
      if Key(serial) in bySerial then Some(bySerial[Key(serial)]) else None
    }

    function FindName(name: string): Option<nat>
    {
      if unique && name in byName then Some(byName[name]) else None
    }

    predicate Clashes(row: Row)
    {
      FindSerial(row.serial).Some? || (row.Type() == TYPE_VAL && FindName(row.name).Some?)
    }

    // TXT_DB_insert of a row that does not clash.
    function Inserted(row: Row): Db
    {
      Db(rows + [row], unique, bySerial[Key(row.serial) := |rows|],
         if unique && row.Type() == TYPE_VAL then byName[row.name := |rows|] else byName)
    }

    // The edit that do_revoke makes to row i, in place.
    function Revoked(i: nat, rev: string): Db
      requires i < |rows|
    {
      this.(rows := rows[i := RevokedRow(rows[i], rev)])
    }

    lemma InsertedIndexed(row: Row)
      requires Indexed() && !Clashes(row)
      ensures Inserted(row).Indexed()
    {
    }

    lemma InsertedIndexedIfFree(row: Row)
      requires Indexed()
      ensures !Clashes(row) ==> Inserted(row).Indexed()
    {
      if !Clashes(row) { InsertedIndexed(row); }
    }

    // A row that becomes revoked leaves the indexes as they are.
    lemma RevokedIndexed(i: nat, rev: string)
      requires Indexed() && i < |rows|
      ensures Revoked(i, rev).Indexed()
    {
    }
  }

  // -------------------------------------------------------------------------
  // do_revoke writes two characters from the start of the type field: the 'R' and a NUL.  The fields of a row that was
  // read lie one after the other, so if the type is empty the NUL is written over the start of the expiry date.  (Only
  // a row that was read can have an empty type.)

  function RevokedRow(row: Row, rev: string): Row
  {
    row.(typ := "R", exp := if row.typ == "" then "" else row.exp, rev := rev)
  }

  // The C string at a position.
  function TextAt(mem: string, o: nat): string
    requires o <= |mem|
  {
    mem[o..][..Find(mem[o..], NUL)]
  }

  lemma TypeWrite(row: Row, rev: string)
    requires NUL !in row.typ && NUL !in row.exp
    ensures var mem := (row.typ + [NUL] + row.exp + [NUL])[0 := TYPE_REV][1 := NUL];
            && TextAt(mem, 0) == RevokedRow(row, rev).typ
            && TextAt(mem, |row.typ| + 1) == RevokedRow(row, rev).exp
  {
    var before := row.typ + [NUL] + row.exp + [NUL];
    var mem := before[0 := TYPE_REV][1 := NUL];
    FindAfter("R", NUL, mem[2..]);
    assert mem == "R" + [NUL] + mem[2..] && mem[0..] == mem && mem[..1] == "R";
    var o := |row.typ| + 1;
    if row.typ == "" {
      FindAfter("", NUL, mem[2..]);
      assert mem[o..] == "" + [NUL] + mem[2..];
    } else {
      FindAfter(row.exp, NUL, "");
      assert mem[o..] == row.exp + [NUL] + "";
    }
  }

  // What the indexes are for.
  predicate SerialsDistinct(rows: seq<Row>)
  {
    forall i, j :: 0 <= i < j < |rows| ==> Key(rows[i].serial) != Key(rows[j].serial)
  }

  predicate ValidSubjectsDistinct(rows: seq<Row>)
  {
    forall i, j :: 0 <= i < j < |rows| && rows[i].Type() == TYPE_VAL && rows[j].Type() == TYPE_VAL ==>
      rows[i].name != rows[j].name
  }

  lemma IndexedIsDistinct(db: Db)
    requires db.Indexed()
    ensures SerialsDistinct(db.rows)
    ensures db.unique ==> ValidSubjectsDistinct(db.rows)
  {
  }

  // -------------------------------------------------------------------------
  // index_index: the indexes of a table that was read, unless two rows clash.

  function SerialMap(rows: seq<Row>): (m: map<string, nat>)
  {
    if rows == [] then map[] else SerialMap(rows[..|rows| - 1])[Key(rows[|rows| - 1].serial) := |rows| - 1]
  }

  function NameMap(rows: seq<Row>): (m: map<string, nat>)
  {
    if rows == [] then map[]
    else
      var m := NameMap(rows[..|rows| - 1]);
      if rows[|rows| - 1].Type() == TYPE_VAL then m[rows[|rows| - 1].name := |rows| - 1] else m
  }

  function IndexOf(rows: seq<Row>, unique: bool): Db
  {
    Db(rows, unique, SerialMap(rows), if unique then NameMap(rows) else map[])
  }

  lemma IndexOfNext(rows: seq<Row>, row: Row, unique: bool)
    ensures IndexOf(rows + [row], unique) == IndexOf(rows, unique).Inserted(row)
  {
    assert (rows + [row])[..|rows|] == rows;
  }

  lemma NoSerialClash(rows: seq<Row>, row: Row, unique: bool)
    requires SerialsDistinct(rows + [row]) && IndexOf(rows, unique).SerialIndexed()
    ensures IndexOf(rows, unique).FindSerial(row.serial) == None
  {
    forall i | 0 <= i < |rows| ensures Key(rows[i].serial) != Key(row.serial) {
      assert (rows + [row])[i] == rows[i] && (rows + [row])[|rows|] == row;
    }
  }

  lemma NoNameClash(rows: seq<Row>, row: Row)
    requires ValidSubjectsDistinct(rows + [row]) && row.Type() == TYPE_VAL
    ensures IndexOf(rows, true).FindName(row.name) == None
  {
    forall i | 0 <= i < |rows| && rows[i].Type() == TYPE_VAL ensures rows[i].name != row.name {
      assert (rows + [row])[i] == rows[i] && (rows + [row])[|rows|] == row;
    }
    if row.name in NameMap(rows) { NameMapValid(rows, row.name); }
  }

  lemma {:induction false} IndexOfIndexed(rows: seq<Row>, unique: bool)
    requires SerialsDistinct(rows) && (unique ==> ValidSubjectsDistinct(rows))
    ensures IndexOf(rows, unique).Indexed()
  {
    if rows != [] {
      var before, row := rows[..|rows| - 1], rows[|rows| - 1];
      assert before + [row] == rows;
      IndexOfIndexed(before, unique);
      NoSerialClash(before, row, unique);
      if unique && row.Type() == TYPE_VAL { NoNameClash(before, row); }
      IndexOfNext(before, row, unique);
      hide Db.SerialIndexed, Db.NameIndexed, IndexOf;
      IndexOf(before, unique).InsertedIndexed(row);
    }
  }

  // Right after indexing, the subject index holds only valid rows.
  lemma {:induction false} NameMapValid(rows: seq<Row>, k: string)
    requires k in NameMap(rows)
    ensures NameMap(rows)[k] < |rows|
    ensures rows[NameMap(rows)[k]].Type() == TYPE_VAL && rows[NameMap(rows)[k]].name == k
  {
    var before := rows[..|rows| - 1];
    if !(rows[|rows| - 1].Type() == TYPE_VAL && rows[|rows| - 1].name == k) {
      NameMapValid(before, k);
      assert before[NameMap(before)[k]] == rows[NameMap(before)[k]];
    }
  }

  // -------------------------------------------------------------------------
  // Issuing a certificate: the part of do_body that deals with the database.

  // A request: one that cannot be processed, one that is declined before the database is
  // consulted, or one for a certificate, with the operator's answer and the signing result.
  datatype Request = Broken | Declined | Wanted(subject: string, notAfter: string, approved: bool, signs: bool)

  // 1 for an issued certificate, 0 for a declined request, -1 for a hard error.
  function Certify(db: Db, serial: int, req: Request): (r: (int, Db))
  {
    match req
    case Broken => (-1, db)
    case Declined => (0, db)
    case Wanted(subject, notAfter, approved, signs) =>
      var row := Certificate(serial, subject, notAfter).NewRow();
      if db.FindName(row.name).Some? || db.FindSerial(row.serial).Some? then (-1, db)
      else if !approved then (0, db)
      else if !signs then (-1, db)
      else (1, db.Inserted(row))
  }

  datatype BatchResult = BatchResult(ok: bool, db: Db, serial: int)

  // The requests of a run, in order; the serial advances with each certificate.
  function Batch(db: Db, serial: int, reqs: seq<Request>): (r: BatchResult)
    decreases |reqs|
  {
    if reqs == [] then BatchResult(true, db, serial)
    else
      var (j, db') := Certify(db, serial, reqs[0]);
      if j < 0 then BatchResult(false, db', serial)
      else Batch(db', serial + j, reqs[1..])
  }

  predicate IsGranted(req: Request)
  {
    req.Wanted? && req.approved && req.signs
  }

  // The requests that end in a certificate, if no hard error occurs.
  function Granted(reqs: seq<Request>): (g: seq<Request>)
    ensures forall i :: 0 <= i < |g| ==> g[i].Wanted?
  {
    if reqs == [] then []
    else if IsGranted(reqs[0]) then [reqs[0]] + Granted(reqs[1..])
    else Granted(reqs[1..])
  }

  function IssuedRows(serial: int, g: seq<Request>): (rows: seq<Row>)
    requires forall i :: 0 <= i < |g| ==> g[i].Wanted?
  {
    seq(|g|, i requires 0 <= i < |g| => Certificate(serial + i, g[i].subject, g[i].notAfter).NewRow())
  }

  lemma CertifyStep(db: Db, serial: int, req: Request)
    requires db.Indexed()
    ensures var (j, db') := Certify(db, serial, req);
            && -1 <= j <= 1 && db'.Indexed() && db'.unique == db.unique
            && (j >= 0 ==> (j == 1 <==> IsGranted(req)))
            && (j == 1 ==> db'.rows == db.rows + [Certificate(serial, req.subject, req.notAfter).NewRow()])
            && (j != 1 ==> db' == db)
  {
    if Certify(db, serial, req).0 == 1 {
      db.InsertedIndexed(Certificate(serial, req.subject, req.notAfter).NewRow());
    }
  }

  lemma GrantedCons(serial: int, reqs: seq<Request>)
    requires reqs != [] && IsGranted(reqs[0])
    ensures |Granted(reqs)| == 1 + |Granted(reqs[1..])|
    ensures IssuedRows(serial, Granted(reqs)) ==
            [Certificate(serial, reqs[0].subject, reqs[0].notAfter).NewRow()]
            + IssuedRows(serial + 1, Granted(reqs[1..]))
  {
    hide IssuedRows;
    assert Granted(reqs) == [reqs[0]] + Granted(reqs[1..]);
    IssuedRowsFirst(serial, reqs[0], Granted(reqs[1..]));
  }

  lemma IssuedRowsFirst(serial: int, req: Request, g: seq<Request>)
    requires req.Wanted? && forall i :: 0 <= i < |g| ==> g[i].Wanted?
    ensures IssuedRows(serial, [req] + g) ==
            [Certificate(serial, req.subject, req.notAfter).NewRow()] + IssuedRows(serial + 1, g)
  {
    hide Certificate.NewRow;
    var a, b := IssuedRows(serial, [req] + g), IssuedRows(serial + 1, g);
    forall i | 0 <= i < |b| ensures a[i + 1] == b[i] {
      assert ([req] + g)[i + 1] == g[i];
    }
  }

  // Every batch keeps the indexes and only appends rows.
  lemma {:induction false} BatchKeeps(db: Db, serial: int, reqs: seq<Request>)
    requires db.Indexed()
    ensures var r := Batch(db, serial, reqs);
            r.db.Indexed() && r.db.unique == db.unique && db.rows <= r.db.rows
    decreases |reqs|
  {
    hide Db.Indexed, Certify;
    if reqs != [] {
      CertifyStep(db, serial, reqs[0]);
      var (j, db') := Certify(db, serial, reqs[0]);
      if j >= 0 { BatchKeeps(db', serial + j, reqs[1..]); }
    }
  }

  // A batch that meets no hard error issues consecutive serials, one for each request
  // granted and none for a declined one, and appends exactly their rows.
  lemma {:induction false} BatchIssues(db: Db, serial: int, reqs: seq<Request>)
    requires db.Indexed() && Batch(db, serial, reqs).ok
    ensures Batch(db, serial, reqs).serial == serial + |Granted(reqs)|
    ensures Batch(db, serial, reqs).db.rows == db.rows + IssuedRows(serial, Granted(reqs))
    decreases |reqs|
  {
    hide Db.Indexed, Certify, IssuedRows, Granted, Certificate.NewRow;
    if reqs == [] {
      NothingGranted(serial);
      assert db.rows + [] == db.rows;
    } else {
      var (j, db') := Certify(db, serial, reqs[0]);
      CertifyStep(db, serial, reqs[0]);
      BatchIssues(db', serial + j, reqs[1..]);
      if j == 1 {
        GrantedCons(serial, reqs);
        var row := Certificate(serial, reqs[0].subject, reqs[0].notAfter).NewRow();
        var tail := IssuedRows(serial + 1, Granted(reqs[1..]));
        assert db.rows + [row] + tail == db.rows + ([row] + tail);
      } else {
        GrantedSkip(reqs);
      }
    }
  }

  lemma GrantedSkip(reqs: seq<Request>)
    requires reqs != [] && !IsGranted(reqs[0])
    ensures Granted(reqs) == Granted(reqs[1..])
  {
  }

  lemma NothingGranted(serial: int)
    ensures Granted([]) == [] && IssuedRows(serial, Granted([])) == []
  {
  }

  // What request i needs: it can be processed, its serial is free, its subject is free or need not be unique, also
  // among the certificates issued before it, and if it is approved then it can be signed.
  ghost predicate Fits(db: Db, serial: int, reqs: seq<Request>, i: nat)
    requires i < |reqs|
  {
    var req, g := reqs[i], Granted(reqs[..i]);
    var n := serial + |g|;
    && !req.Broken?
    && (req.Wanted? ==>
          && (req.approved ==> req.signs)
          && db.FindSerial(SerialText(n)).None?
          && db.FindName(SubjectOf(n, req)).None?
          && (db.unique ==> NotIssued(serial, g, SubjectOf(n, req))))
  }

  ghost predicate NotIssued(serial: int, g: seq<Request>, subject: string)
    requires forall i :: 0 <= i < |g| ==> g[i].Wanted?
  {
    forall j :: 0 <= j < |g| ==> SubjectOf(serial + j, g[j]) != subject
  }

  function SubjectOf(serial: int, req: Request): string
    requires req.Wanted?
  {
    Certificate(serial, req.subject, req.notAfter).Name()
  }

  lemma FitsFirst(db: Db, serial: int, reqs: seq<Request>)
    requires reqs != []
    ensures Fits(db, serial, reqs, 0) <==> Certify(db, serial, reqs[0]).0 >= 0
  {
    hide SerialText;
    assert reqs[..0] == [];
  }

  // The certificate just issued is one more to avoid.
  lemma FitsAfterIssue(db: Db, serial: int, reqs: seq<Request>, i: nat)
    requires i + 1 < |reqs| && Certify(db, serial, reqs[0]).0 == 1
    ensures Fits(db, serial, reqs, i + 1) <==> Fits(Certify(db, serial, reqs[0]).1, serial + 1, reqs[1..], i)
  {
    hide SerialText, Key;
    var g := Granted(reqs[1..][..i]);
    assert reqs[..i + 1] == [reqs[0]] + reqs[1..][..i];
    assert Granted(reqs[..i + 1]) == [reqs[0]] + g by { assert reqs[..i + 1][1..] == reqs[1..][..i]; }
    var n := serial + 1 + |g|;
    if Key(SerialText(serial)) == Key(SerialText(n)) { SerialKeysDiffer(serial, n); }
    if reqs[i + 1].Wanted? { NotIssuedFirst(serial, reqs[0], g, SubjectOf(n, reqs[i + 1])); }
    hide NotIssued;
    assert reqs[1..][i] == reqs[i + 1];
  }

  lemma NotIssuedFirst(serial: int, req: Request, g: seq<Request>, subject: string)
    requires req.Wanted? && forall i :: 0 <= i < |g| ==> g[i].Wanted?
    ensures NotIssued(serial, [req] + g, subject) <==>
            SubjectOf(serial, req) != subject && NotIssued(serial + 1, g, subject)
  {
    hide SubjectOf;
    var g' := [req] + g;
    if NotIssued(serial, g', subject) {
      assert g'[0] == req;
      forall j | 0 <= j < |g| ensures SubjectOf(serial + 1 + j, g[j]) != subject {
        assert g'[j + 1] == g[j];
        assert serial + 1 + j == serial + (j + 1);
      }
    }
    if SubjectOf(serial, req) != subject && NotIssued(serial + 1, g, subject) {
      forall j | 0 <= j < |g'| ensures SubjectOf(serial + j, g'[j]) != subject {
        assert g'[j] == if j == 0 then req else g[j - 1];
        assert serial + j == serial + 1 + (j - 1);
      }
    }
  }

  lemma FitsAfterDecline(db: Db, serial: int, reqs: seq<Request>, i: nat)
    requires i + 1 < |reqs| && Certify(db, serial, reqs[0]).0 == 0
    ensures Fits(db, serial, reqs, i + 1) <==> Fits(db, serial, reqs[1..], i)
  {
    hide SerialText, Key;
    assert reqs[..i + 1][1..] == reqs[1..][..i];
  }

  ghost predicate AllFit(db: Db, serial: int, reqs: seq<Request>)
  {
    forall i :: 0 <= i < |reqs| ==> Fits(db, serial, reqs, i)
  }

  // A batch goes through exactly when every request of it fits.
  lemma {:induction false} BatchSucceedsIff(db: Db, serial: int, reqs: seq<Request>)
    ensures Batch(db, serial, reqs).ok <==> AllFit(db, serial, reqs)
    decreases |reqs|
  {
    hide Fits, Certify;
    if reqs != [] {
      FitsFirst(db, serial, reqs);
      var (j, db') := Certify(db, serial, reqs[0]);
      CertifyRange(db, serial, reqs[0]);
      if j >= 0 {
        var next, tail := serial + j, reqs[1..];
        BatchSucceedsIff(db', next, tail);
        forall i: nat | 0 < i < |reqs| ensures Fits(db, serial, reqs, i) <==> Fits(db', next, tail, i - 1) {
          if j == 1 { FitsAfterIssue(db, serial, reqs, i - 1); } else { FitsAfterDecline(db, serial, reqs, i - 1); }
        }
        if AllFit(db, serial, reqs) {
          forall i: nat | i < |tail| ensures Fits(db', next, tail, i) { assert Fits(db, serial, reqs, i + 1); }
        }
      }
    }
  }

  lemma CertifyRange(db: Db, serial: int, req: Request)
    ensures var (j, db') := Certify(db, serial, req); -1 <= j <= 1 && (j != 1 ==> db' == db)
  {
  }

  // -------------------------------------------------------------------------
  // do_revoke, which also imports a certificate that is not in the database.

  function Revoke(env: Env, db: Db, cert: Certificate, t: RevType, arg: string, now: Tm): (r: (bool, Db))
    requires now.Valid()
    decreases db.FindSerial(SerialText(cert.serial)).None?
  {
    match db.FindSerial(SerialText(cert.serial))
    case None =>
      var row := cert.NewRow();
      if db.Clashes(row) then (false, db)
      else if t == RevValid then (true, db.Inserted(row))
      else Revoke(env, db.Inserted(row), cert, t, arg, now)
    case Some(i) =>
      if i >= |db.rows| || db.rows[i].name != cert.Name() then (false, db)
      else if t == RevValid || db.rows[i].Type() == TYPE_REV then (false, db)
      else
        match MakeRevocation(env, t, arg, now)
        case None => (false, db)
        case Some(s) => (true, db.Revoked(i, s))
  }

  // When a revocation (or, for RevValid, an import) goes through.
  predicate RevokeAccepted(env: Env, db: Db, cert: Certificate, t: RevType, arg: string, now: Tm)
    requires now.Valid()
  {
    match db.FindSerial(SerialText(cert.serial))
    case None => db.FindName(cert.Name()).None? && (t == RevValid || MakeRevocation(env, t, arg, now).Some?)
    case Some(i) =>
      && i < |db.rows| && db.rows[i].name == cert.Name() && db.rows[i].Type() != TYPE_REV
      && t != RevValid && MakeRevocation(env, t, arg, now).Some?
  }

  // The rows that a revocation edits: the row of the certificate is added if it is missing.
  function RevokeBase(db: Db, cert: Certificate): (rows: seq<Row>)
  {
    if db.FindSerial(SerialText(cert.serial)).None? then db.rows + [cert.NewRow()] else db.rows
  }

  // Row i, not revoked before, becomes revoked with s; no other row changes, and no other
  // row has the serial.
  ghost predicate RevokesOne(before: seq<Row>, after: seq<Row>, serial: string, i: nat, s: string)
  {
    && i < |before| && Key(before[i].serial) == Key(serial) && before[i].Type() != TYPE_REV
    && after == before[i := RevokedRow(before[i], s)]
    && forall j :: 0 <= j < |after| && Key(after[j].serial) == Key(serial) ==> j == i
  }

  lemma RevokeKnown(env: Env, db: Db, cert: Certificate, t: RevType, arg: string, now: Tm)
    requires now.Valid() && db.Indexed() && db.FindSerial(SerialText(cert.serial)).Some?
    ensures var (ok, db') := Revoke(env, db, cert, t, arg, now);
            && db'.Indexed() && db'.unique == db.unique
            && ok == RevokeAccepted(env, db, cert, t, arg, now)
            && (!ok ==> db' == db)
            && (ok ==>
                  var s := MakeRevocation(env, t, arg, now).value;
                  exists i :: RevokesOne(db.rows, db'.rows, SerialText(cert.serial), i, s))
  {
    var i := db.bySerial[Key(SerialText(cert.serial))];
    var (ok, db') := Revoke(env, db, cert, t, arg, now);
    if ok {
      var s := MakeRevocation(env, t, arg, now).value;
      db.RevokedIndexed(i, s);
      assert RevokesOne(db.rows, db'.rows, SerialText(cert.serial), i, s);
    }
  }

  // Revoking succeeds exactly when it is accepted; it then leaves exactly one row for the
  // serial, revoked as asked, whether or not the serial was known, and no other row changed.
  // A failure changes nothing but, for an unknown serial, the row that was added.
  lemma RevokeOutcome(env: Env, db: Db, cert: Certificate, t: RevType, arg: string, now: Tm)
    requires now.Valid() && db.Indexed()
    ensures var (ok, db') := Revoke(env, db, cert, t, arg, now);
            && db'.Indexed() && db'.unique == db.unique
            && ok == RevokeAccepted(env, db, cert, t, arg, now)
            && (!ok ==> db'.rows == db.rows || db'.rows == RevokeBase(db, cert))
            && (ok && t == RevValid ==> db'.rows == db.rows + [cert.NewRow()])
            && (ok && t != RevValid ==>
                  var s := MakeRevocation(env, t, arg, now).value;
                  exists i :: RevokesOne(RevokeBase(db, cert), db'.rows, SerialText(cert.serial), i, s))
  {
    hide Db.Indexed, RevokesOne, MakeRevocation, SerialText;
    var (ok, db') := Revoke(env, db, cert, t, arg, now);
    var base := RevokeBase(db, cert);
    if db.FindSerial(SerialText(cert.serial)).Some? {
      RevokeKnown(env, db, cert, t, arg, now);
      assert base == db.rows;
    } else if !db.Clashes(cert.NewRow()) {
      db.InsertedIndexed(cert.NewRow());
      var db1 := db.Inserted(cert.NewRow());
      assert db1.rows[|db.rows|] == cert.NewRow() && cert.NewRow().Type() == TYPE_VAL;
      assert db1.FindSerial(SerialText(cert.serial)) == Some(|db.rows|);
      if t != RevValid {
        RevokeKnown(env, db1, cert, t, arg, now);
        assert base == db1.rows;
      }
    }
    if ok && t != RevValid {
      var s := MakeRevocation(env, t, arg, now).value;
      var i :| RevokesOne(base, db'.rows, SerialText(cert.serial), i, s);
    }
  }

  // -------------------------------------------------------------------------
  // do_updatedb: valid rows whose time has come are marked expired.

  predicate Unparsable(env: Env, row: Row)
  {
    row.Type() == TYPE_VAL && env.moment(row.exp).None?
  }

  predicate Due(env: Env, row: Row, now: int)
  {
    row.Type() == TYPE_VAL && env.moment(row.exp).Some? && env.moment(row.exp).value <= now
  }

  function Expired(env: Env, row: Row, now: int): Row
  {
    if Due(env, row, now) then row.(typ := "E") else row
  }

  // The rows after the scan, and how many were marked; a valid row whose expiry date does
  // not parse stops the scan with -1 and leaves the rows after it alone.
  function UpdateRows(env: Env, rows: seq<Row>, now: int): (r: (int, seq<Row>))
    ensures |r.1| == |rows| && r.0 >= -1
  {
    if rows == [] then (0, [])
    else if Unparsable(env, rows[0]) then (-1, rows)
    else
      var (cnt, tail) := UpdateRows(env, rows[1..], now);
      (if cnt < 0 then -1 else cnt + if Due(env, rows[0], now) then 1 else 0, [Expired(env, rows[0], now)] + tail)
  }

  function Update(env: Env, db: Db, now: int): (r: (int, Db))
  {
    var (cnt, rows) := UpdateRows(env, db.rows, now);
    (cnt, db.(rows := rows))
  }

  // The number of rows that an update marks.
  function DueCount(env: Env, rows: seq<Row>, now: int): nat
  {
    if rows == [] then 0 else (if Due(env, rows[0], now) then 1 else 0) + DueCount(env, rows[1..], now)
  }

  // An update succeeds exactly when every valid row has a readable expiry date; it then marks
  // every due row and reports their number.
  lemma {:induction false} UpdateRowsMarksDue(env: Env, rows: seq<Row>, now: int)
    ensures var (cnt, rows') := UpdateRows(env, rows, now);
            && (cnt >= 0 <==> forall i :: 0 <= i < |rows| ==> !Unparsable(env, rows[i]))
            && (cnt >= 0 ==> cnt == DueCount(env, rows, now))
            && (cnt >= 0 ==> forall i :: 0 <= i < |rows| ==> rows'[i] == Expired(env, rows[i], now))
            && (forall i :: 0 <= i < |rows| ==> rows'[i] == rows[i] || rows'[i] == Expired(env, rows[i], now))
  {
    if rows != [] {
      UpdateRowsMarksDue(env, rows[1..], now);
      assert forall i :: 0 < i < |rows| ==> rows[i] == rows[1..][i - 1];
    }
  }

  // A row and what becomes of it: a valid row whose expiry date is not after the clock is marked 'E'.
  predicate ExpiresTo(env: Env, row: Row, now: int, row': Row)
  {
    row' ==
    if row.typ != "" && row.typ[0] == 'V' && env.moment(row.exp).Some? && env.moment(row.exp).value <= now
    then Row("E", row.exp, row.rev, row.serial, row.file, row.name) else row
  }

  predicate UnreadableExpiry(env: Env, row: Row)
  {
    row.typ != "" && row.typ[0] == 'V' && env.moment(row.exp).None?
  }

  // The number of rows that are not as they were.
  function Changes(rows: seq<Row>, rows': seq<Row>): nat
    requires |rows| == |rows'|
  {
    if rows == [] then 0 else (if rows[0] != rows'[0] then 1 else 0) + Changes(rows[1..], rows'[1..])
  }

  // An update goes up to the first valid row with an unreadable expiry date, at k, or to the end.
  lemma {:induction false} UpdateExpires(env: Env, rows: seq<Row>, now: int, k: nat)
    requires k <= |rows| && (k < |rows| ==> UnreadableExpiry(env, rows[k]))
    requires forall i :: 0 <= i < k ==> !UnreadableExpiry(env, rows[i])
    ensures var (cnt, rows') := UpdateRows(env, rows, now);
            && (forall i :: 0 <= i < k ==> ExpiresTo(env, rows[i], now, rows'[i])) && rows'[k..] == rows[k..]
            && cnt == if k < |rows| then -1 else Changes(rows, rows')
  {
    if rows != [] && k > 0 {
      var (cnt, rows') := UpdateRows(env, rows, now);
      UpdateExpires(env, rows[1..], now, k - 1);
      var tail := UpdateRows(env, rows[1..], now).1;
      assert rows'[1..] == tail && rows'[k..] == tail[k - 1..] && rows[k..] == rows[1..][k - 1..];
      forall i | 0 <= i < k ensures ExpiresTo(env, rows[i], now, rows'[i]) {
        if i > 0 { assert ExpiresTo(env, rows[1..][i - 1], now, tail[i - 1]); }
      }
    }
  }

  // Two updates are as good as the later one, and their counts add up.
  lemma {:induction false} UpdateTwice(env: Env, rows: seq<Row>, t1: int, t2: int)
    requires t1 <= t2 && UpdateRows(env, rows, t1).0 >= 0
    ensures var (c1, rows1) := UpdateRows(env, rows, t1);
            var (c2, rows2) := UpdateRows(env, rows1, t2);
            var (c, rows') := UpdateRows(env, rows, t2);
            rows2 == rows' && c2 >= 0 && c >= 0 && c1 + c2 == c
  {
    if rows != [] {
      UpdateTwice(env, rows[1..], t1, t2);
      assert UpdateRows(env, rows, t1).1[1..] == UpdateRows(env, rows[1..], t1).1;
    }
  }

  lemma UpdateAgain(env: Env, rows: seq<Row>, now: int)
    requires UpdateRows(env, rows, now).0 >= 0
    ensures var rows' := UpdateRows(env, rows, now).1; UpdateRows(env, rows', now) == (0, rows')
  {
    UpdateTwice(env, rows, now, now);
  }

  // Rows that keep their certificate and do not become valid keep the indexes right.
  lemma StatusIndexed(db: Db, rows: seq<Row>)
    requires db.Indexed() && |rows| == |db.rows|
    requires forall i :: 0 <= i < |rows| ==> db.rows[i].SameCertificate(rows[i])
    requires forall i :: 0 <= i < |rows| && rows[i].Type() == TYPE_VAL ==> db.rows[i].Type() == TYPE_VAL
    ensures db.(rows := rows).Indexed()
  {
    var db' := db.(rows := rows);
    assert db'.SerialIndexed() by {
      forall i | 0 <= i < |rows| ensures Key(rows[i].serial) in db.bySerial && db.bySerial[Key(rows[i].serial)] == i {
        assert db.rows[i].SameCertificate(rows[i]);
      }
    }
    assert db'.NameIndexed() by {
      forall i | 0 <= i < |rows| ensures rows[i].name == db.rows[i].name {
        assert db.rows[i].SameCertificate(rows[i]);
      }
    }
  }

  lemma UpdateIndexed(env: Env, db: Db, now: int)
    requires db.Indexed()
    ensures Update(env, db, now).1.Indexed()
  {
    hide Db.Indexed;
    UpdateRowsMarksDue(env, db.rows, now);
    StatusIndexed(db, UpdateRows(env, db.rows, now).1);
  }

  // -------------------------------------------------------------------------
  // The life of a row: valid rows expire, unrevoked rows are revoked, and nothing else.

  predicate RowStep(a: Row, b: Row)
  {
    a.SameCertificate(b) &&
    (a == b || (a.Type() == TYPE_VAL && b.typ == "E" && a.rev == b.rev) || (a.Type() != TYPE_REV && b.typ == "R"))
  }

  ghost predicate Evolves(before: seq<Row>, after: seq<Row>)
  {
    |before| <= |after| && forall i :: 0 <= i < |before| ==> RowStep(before[i], after[i])
  }

  lemma EvolvesTransitive(a: seq<Row>, b: seq<Row>, c: seq<Row>)
    requires Evolves(a, b) && Evolves(b, c)
    ensures Evolves(a, c)
  {
    forall i | 0 <= i < |a| ensures RowStep(a[i], c[i]) {
      assert RowStep(a[i], b[i]) && RowStep(b[i], c[i]);
    }
  }

  // An accepted revocation of a row with an empty type, which costs the row its expiry date.
  predicate LosesExpiry(env: Env, db: Db, cert: Certificate, t: RevType, arg: string, now: Tm)
    requires now.Valid()
  {
    && RevokeAccepted(env, db, cert, t, arg, now) && t != RevValid
    && var i := db.FindSerial(SerialText(cert.serial));
       i.Some? && db.rows[i.value].typ == "" && db.rows[i.value].exp != ""
  }

  // A revocation changes rows only as permitted exactly if it does not meet a row with an empty type.
  lemma RevokeEvolves(env: Env, db: Db, cert: Certificate, t: RevType, arg: string, now: Tm)
    requires now.Valid() && db.Indexed()
    ensures Evolves(db.rows, Revoke(env, db, cert, t, arg, now).1.rows) <==> !LosesExpiry(env, db, cert, t, arg, now)
  {
    var rows := Revoke(env, db, cert, t, arg, now).1.rows;
    RevokeOutcome(env, db, cert, t, arg, now);
    assert RevokeAccepted(env, db, cert, t, arg, now) && t != RevValid ==> MakeRevocation(env, t, arg, now).Some?;
    hide Revoke, RevokeAccepted, MakeRevocation, SerialText, Db.Indexed, Evolves, RevokesOne;
    var base := RevokeBase(db, cert);
    if RevokeAccepted(env, db, cert, t, arg, now) && t != RevValid {
      var s := MakeRevocation(env, t, arg, now).value;
      var i: nat :| RevokesOne(base, rows, SerialText(cert.serial), i, s);
      RevokesOneEvolves(base, rows, SerialText(cert.serial), i, s);
      RevokesFound(db, cert, rows, i, s);
      if db.FindSerial(SerialText(cert.serial)).None? { EvolvesCut(db.rows, base, rows); }
    } else {
      EvolvesPrefix(db.rows, rows);
    }
  }

  lemma EvolvesPrefix(a: seq<Row>, b: seq<Row>)
    requires a <= b
    ensures Evolves(a, b)
  {
  }

  lemma RevokesOneEvolves(before: seq<Row>, after: seq<Row>, serial: string, i: nat, s: string)
    requires RevokesOne(before, after, serial, i, s)
    ensures i < |before|
    ensures Evolves(before, after) <==> before[i].typ != "" || before[i].exp == ""
  {
    hide Key;
    RevokedRowStep(before[i], s);
    assert after[i] == RevokedRow(before[i], s);
  }

  // The row that is revoked: the one found, or the one added.
  lemma RevokesFound(db: Db, cert: Certificate, after: seq<Row>, i: nat, s: string)
    requires db.Indexed() && RevokesOne(RevokeBase(db, cert), after, SerialText(cert.serial), i, s)
    ensures i < |RevokeBase(db, cert)|
    ensures db.FindSerial(SerialText(cert.serial)) == if i < |db.rows| then Some(i) else None
    ensures i >= |db.rows| ==> RevokeBase(db, cert)[i] == cert.NewRow()
  {
    hide Key, SerialText;
  }

  lemma EvolvesCut(a: seq<Row>, b: seq<Row>, c: seq<Row>)
    requires a <= b && Evolves(b, c)
    ensures Evolves(a, c)
  {
    forall i | 0 <= i < |a| ensures RowStep(a[i], c[i]) { assert RowStep(b[i], c[i]); }
  }

  lemma RevokedRowStep(row: Row, s: string)
    requires row.Type() != TYPE_REV
    ensures RowStep(row, RevokedRow(row, s)) <==> row.typ != "" || row.exp == ""
  {
  }

  lemma UpdateEvolves(env: Env, db: Db, now: int)
    ensures Evolves(db.rows, Update(env, db, now).1.rows)
  {
    UpdateRowsMarksDue(env, db.rows, now);
  }
}
