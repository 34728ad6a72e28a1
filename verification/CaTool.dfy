// The operations of apps/ca.c on the database, as they change it in place.
module CaTool {
  import opened Prelude
  import opened Hex
  import opened RevInfo
  import opened Time
  import opened CaDatabase

  class CaDb {
    var rows: seq<Row>
    var unique: bool
    var bySerial: map<string, nat>
    var byName: map<string, nat>

    ghost function State(): Db
      reads this
    {
      Db(rows, unique, bySerial, byName)
    }

    // A table as it was read, without indexes.
    constructor (rows: seq<Row>, unique: bool)
      ensures State() == Db(rows, unique, map[], map[])
    {
      this.rows, this.unique, bySerial, byName := rows, unique, map[], map[];
    }

    // index_index: creates the indexes, unless two rows clash in one.
    method IndexIndex() returns (ok: bool)
      modifies this`bySerial, this`byName
      ensures ok <==> SerialsDistinct(rows) && (unique ==> ValidSubjectsDistinct(rows))
      ensures ok ==> State() == IndexOf(rows, unique) && State().Indexed()
    {
      ok := CreateSerialIndex();
      if ok && unique {
        ok := CreateNameIndex();
      } else {
        byName := map[];
      }
      if ok { IndexOfIndexed(rows, unique); }
    }

    // TXT_DB_create_index for the serial numbers.
    method CreateSerialIndex() returns (ok: bool)
      modifies this`bySerial
      ensures ok <==> SerialsDistinct(rows)
      ensures ok ==> bySerial == SerialMap(rows)
    {
      hide Key;
      var idx: map<string, nat> := map[];
      for i := 0 to |rows|
        invariant idx == SerialMap(rows[..i])
        invariant forall j :: 0 <= j < i ==> Key(rows[j].serial) in idx && idx[Key(rows[j].serial)] == j
        invariant forall k :: k in idx ==> idx[k] < i && Key(rows[idx[k]].serial) == k
      {
        var key := Key(rows[i].serial);
        if key in idx {
          assert Key(rows[idx[key]].serial) == Key(rows[i].serial);
          return false;
        }
        assert rows[..i + 1][..i] == rows[..i];
        idx := idx[key := i];
      }
      assert rows[..|rows|] == rows;
      bySerial := idx;
      ok := true;
    }

    // TXT_DB_create_index for the subjects of valid rows.
    method CreateNameIndex() returns (ok: bool)
      modifies this`byName
      ensures ok <==> ValidSubjectsDistinct(rows)
      ensures ok ==> byName == NameMap(rows)
    {
      var idx: map<string, nat> := map[];
      for i := 0 to |rows|
        invariant idx == NameMap(rows[..i]) && ValidSubjectsDistinct(rows[..i])
        invariant forall j :: 0 <= j < i && rows[j].Type() == TYPE_VAL ==> rows[j].name in idx
        invariant forall k :: k in idx ==> idx[k] < i && rows[idx[k]].Type() == TYPE_VAL && rows[idx[k]].name == k
      {
        assert rows[..i + 1][..i] == rows[..i];
        if rows[i].Type() == TYPE_VAL {
          if rows[i].name in idx { return false; }
          idx := idx[rows[i].name := i];
        }
      }
      assert rows[..|rows|] == rows;
      byName := idx;
      ok := true;
    }

    // TXT_DB_insert: refuses a row that clashes in any index.
    method Insert(row: Row) returns (ok: bool)
      modifies this
      ensures ok == !old(State()).Clashes(row)
      ensures State() == if ok then old(State()).Inserted(row) else old(State())
    {
      if Key(row.serial) in bySerial { return false; }
      if unique && row.Type() == TYPE_VAL && row.name in byName { return false; }
      bySerial := bySerial[Key(row.serial) := |rows|];
      if unique && row.Type() == TYPE_VAL { byName := byName[row.name := |rows|]; }
      rows := rows + [row];
      ok := true;
    }

    // The database part of do_body: 1 if the certificate was issued, 0 if it was declined.
    method DoBody(serial: int, req: Request) returns (j: int)
      modifies this
      ensures (j, State()) == Certify(old(State()), serial, req)
    {
      match req {
        case Broken => j := -1;
        case Declined => j := 0;
        case Wanted(subject, notAfter, approved, signs) =>
          var row := Certificate(serial, subject, notAfter).NewRow();
          var clash := unique && row.name in byName;
          if !clash { clash := Key(row.serial) in bySerial; }
          if clash { return -1; }
          if !approved { return 0; }
          if !signs { return -1; }
          var ok := Insert(row);
          j := if ok then 1 else -1;
      }
    }

    // The requests of a run: the loop of ca_main.
    method CertifyAll(first: int, reqs: seq<Request>) returns (ok: bool, serial: int)
      modifies this
      ensures BatchResult(ok, State(), serial) == Batch(old(State()), first, reqs)
    {
      serial := first;
      ghost var goal := Batch(State(), first, reqs);
      for i := 0 to |reqs|
        invariant Batch(State(), serial, reqs[i..]) == goal
      {
        assert reqs[i..][1..] == reqs[i + 1..];
        var j := DoBody(serial, reqs[i]);
        if j < 0 { return false, serial; }
        if j > 0 { serial := serial + 1; }
      }
      ok := true;
    }

    // do_revoke.  It calls itself once at most: after an insertion, the serial is known.
    method DoRevoke(env: Env, cert: Certificate, t: RevType, arg: string, now: Tm) returns (ok: bool)
      requires State().Indexed() && now.Valid() && NUL !in arg
      modifies this
      ensures (ok, State()) == Revoke(env, old(State()), cert, t, arg, now)
      decreases Key(SerialText(cert.serial)) !in bySerial
    {
      var serial := SerialText(cert.serial);
      if Key(serial) !in bySerial {
        State().InsertedIndexedIfFree(cert.NewRow());
        ok := Insert(cert.NewRow());
        if !ok { return; }
        if t != RevValid { ok := DoRevoke(env, cert, t, arg, now); }
      } else {
        var i := bySerial[Key(serial)];
        if rows[i].name != cert.Name() { return false; }
        if t == RevValid { return false; }
        if rows[i].Type() == TYPE_REV { return false; }
        var str := MakeRevocationStr(env, t, arg, now);
        if str.None? { return false; }
        // the two characters written reach the expiry date if the type is empty
        var row := rows[i].(rev := str.value);
        if row.typ == "" { row := row.(exp := ""); }
        row := row.(typ := "R");
        rows := rows[i := row];
        ok := true;
      }
    }

    // do_updatedb: the number of rows marked, or -1.
    method DoUpdate(env: Env, now: int) returns (cnt: int)
      modifies this`rows
      ensures (cnt, State()) == Update(env, old(State()), now)
    {
      hide UpdateRows, Merge;
      cnt := 0;
      ghost var goal := UpdateRows(env, rows, now);
      assert rows[..0] == [] && rows[0..] == rows;
      MergeNothing(goal);
      for i := 0 to |rows|
        invariant |rows| == |old(rows)| && cnt >= 0
        invariant goal == Merge(rows[..i], cnt, UpdateRows(env, rows[i..], now))
      {
        MergeNext(env, rows, i, cnt, now);
        var row := rows[i];
        assert rows[i := row] == rows;
        if row.Type() == TYPE_VAL {
          var exp := env.moment(row.exp);
          if exp.None? { return -1; }
          if exp.value <= now {
            rows := rows[i := row.(typ := "E")];
            cnt := cnt + 1;
          }
        }
      }
      assert rows[..|rows|] == rows && rows[|rows|..] == [];
      MergeAll(env, rows, cnt, now);
    }
  }

  // The result of an update whose first rows are done.
  function Merge(done: seq<Row>, cnt: int, r: (int, seq<Row>)): (int, seq<Row>)
  {
    (if r.0 < 0 then -1 else cnt + r.0, done + r.1)
  }

  lemma MergeNothing(r: (int, seq<Row>))
    requires r.0 >= -1
    ensures Merge([], 0, r) == r
  {
    assert [] + r.1 == r.1;
  }

  lemma MergeAll(env: Env, rows: seq<Row>, cnt: int, now: int)
    ensures Merge(rows, cnt, UpdateRows(env, [], now)) == (cnt, rows)
  {
    assert rows + [] == rows;
  }

  lemma MergeNext(env: Env, rows: seq<Row>, i: nat, cnt: int, now: int)
    requires i < |rows| && cnt >= 0
    ensures Unparsable(env, rows[i]) ==> Merge(rows[..i], cnt, UpdateRows(env, rows[i..], now)) == (-1, rows)
    ensures !Unparsable(env, rows[i]) ==>
              var rows' := rows[i := Expired(env, rows[i], now)];
              Merge(rows[..i], cnt, UpdateRows(env, rows[i..], now)) ==
              Merge(rows'[..i + 1], cnt + (if Due(env, rows[i], now) then 1 else 0),
                    UpdateRows(env, rows'[i + 1..], now))
  {
    assert rows[i..][1..] == rows[i + 1..];
    if Unparsable(env, rows[i]) {
      assert rows[..i] + rows[i..] == rows;
    } else {
      var rows' := rows[i := Expired(env, rows[i], now)];
      assert rows'[i + 1..] == rows[i + 1..];
      var tail := UpdateRows(env, rows[i + 1..], now).1;
      assert rows[..i] + ([rows'[i]] + tail) == rows'[..i + 1] + tail;
    }
  }
}
