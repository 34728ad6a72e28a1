// The text form of a database: TXT_DB_write and TXT_DB_read of crypto/txt_db/txt_db.c.
// A row is a sequence of fields; each row is a line, its fields separated by tabs.
module TxtDb {
  import opened Prelude

  type Fields = seq<string>

  // -------------------------------------------------------------------------
  // Writing.  A tab inside a field is preceded by a backslash.

  function WriteField(f: string): (t: string)
  {
    if f == "" then "" else WriteChar(f[0]) + WriteField(f[1..])
  }

  function WriteChar(c: char): (t: string)
  {
    if c == '\t' then "\\\t" else [c]
  }

  function WriteLine(row: Fields): (t: string)
  {
    if row == [] then "" else if |row| == 1 then WriteField(row[0])
    else WriteField(row[0]) + "\t" + WriteLine(row[1..])
  }

  function WriteRows(rows: seq<Fields>): (t: string)
  {
    if rows == [] then "" else WriteLine(rows[0]) + "\n" + WriteRows(rows[1..])
  }

  // -------------------------------------------------------------------------
  // Reading.  The scanner of a line: the fields ended so far, the one being read, and
  // whether the last character was a backslash.

  datatype Scan = Scan(ended: Fields, cur: string, esc: bool)

  // The reader stops at a tab that would start a field too many.
  predicate Stops(st: Scan, c: char, num: nat)
  {
    c == '\t' && !st.esc && |st.ended| + 1 >= num
  }

  function Step(st: Scan, c: char): (st': Scan)
  {
    if c == '\t' && !st.esc then Scan(st.ended + [st.cur], "", false)
    else
      var cur := if c == '\t' && st.cur != "" then st.cur[..|st.cur| - 1] else st.cur;
      Scan(st.ended, cur + [c], c == '\\')
  }

  // The state after the line, and what is left of it.
  function ScanLine(st: Scan, line: string, num: nat): (r: (Scan, string))
    decreases |line|
  {
    if line == "" then (st, "")
    else if Stops(st, line[0], num) then (st, line[1..])
    else ScanLine(Step(st, line[0]), line[1..], num)
  }

  function ReadLine(line: string, num: nat): (r: Option<Fields>)
    ensures r.Some? ==> |r.value| == num
  {
    var (st, rest) := ScanLine(Scan([], "", false), line, num);
    var row := st.ended + [st.cur];
    if |row| == num && rest == "" then Some(row) else None
  }

  // A line that starts with '#' is skipped, an unterminated last line is dropped, and a
  // line with the wrong number of fields fails the whole read.
  function ReadRows(text: string, num: nat): (r: Option<seq<Fields>>)
    ensures r.Some? ==> forall i :: 0 <= i < |r.value| ==> |r.value[i]| == num
    decreases |text|
  {
    var i := Find(text, '\n');
    if i == |text| then Some([])
    else
      var line, rest := text[..i], text[i + 1..];
      var tail := ReadRows(rest, num);
      if line != "" && line[0] == '#' then tail
      else match ReadLine(line, num)
        case None => None
        case Some(row) => if tail.Some? then Some([row] + tail.value) else None
  }

  // -------------------------------------------------------------------------
  // The round trip.

  predicate EndsInEscape(f: string)
  {
    f != "" && f[|f| - 1] == '\\'
  }

  // No field but the last ends in a backslash, which would hide the tab after it.
  predicate Separable(row: Fields)
  {
    forall i :: 0 <= i < |row| - 1 ==> !EndsInEscape(row[i])
  }

  predicate OneLine(row: Fields)
  {
    forall i :: 0 <= i < |row| ==> '\n' !in row[i]
  }

  predicate Comment(row: Fields)
  {
    row != [] && row[0] != "" && row[0][0] == '#'
  }

  // A row that the reader gives back.
  predicate Readable(row: Fields)
  {
    OneLine(row) && !Comment(row) && Separable(row)
  }

  lemma ScanChar(st: Scan, c: char, rest: string, num: nat)
    requires !Stops(st, c, num)
    ensures ScanLine(st, [c] + rest, num) == ScanLine(Step(st, c), rest, num)
  {
    assert ([c] + rest)[1..] == rest;
  }

  // Scanning a written character copies it.
  lemma ScanWritten(st: Scan, c: char, rest: string, num: nat)
    ensures ScanLine(st, WriteChar(c) + rest, num) == ScanLine(Scan(st.ended, st.cur + [c], c == '\\'), rest, num)
  {
    hide ScanLine;
    if c == '\t' {
      var st1 := Step(st, '\\');
      assert WriteChar(c) + rest == ['\\'] + (['\t'] + rest);
      ScanChar(st, '\\', ['\t'] + rest, num);
      ScanChar(st1, '\t', rest, num);
      assert st1.cur[..|st1.cur| - 1] == st.cur;
    } else {
      ScanChar(st, c, rest, num);
    }
  }

  // Scanning a written field copies it.
  lemma {:induction false} ScanField(st: Scan, f: string, rest: string, num: nat)
    ensures var esc := if f == "" then st.esc else EndsInEscape(f);
            ScanLine(st, WriteField(f) + rest, num) == ScanLine(Scan(st.ended, st.cur + f, esc), rest, num)
    decreases |f|
  {
    hide ScanLine, WriteChar;
    if f == "" {
      assert WriteField(f) + rest == rest && st.cur + f == st.cur;
    } else {
      var c, f' := f[0], f[1..];
      assert WriteField(f) + rest == WriteChar(c) + (WriteField(f') + rest);
      ScanWritten(st, c, WriteField(f') + rest, num);
      ScanField(Scan(st.ended, st.cur + [c], c == '\\'), f', rest, num);
      assert st.cur + [c] + f' == st.cur + f;
    }
  }

  // The separators that the scanner sees: those after a field that does not end in a backslash.
  ghost function Separators(row: Fields): nat
  {
    if |row| <= 1 then 0 else (if EndsInEscape(row[0]) then 0 else 1) + Separators(row[1..])
  }

  lemma {:induction false} SeparatorsBound(row: Fields)
    ensures Separators(row) <= if row == [] then 0 else |row| - 1
    ensures row != [] ==> (Separators(row) == |row| - 1 <==> Separable(row))
  {
    if |row| > 1 {
      SeparatorsBound(row[1..]);
      assert forall i :: 0 < i < |row| ==> row[i] == row[1..][i - 1];
      if Separable(row[1..]) && !EndsInEscape(row[0]) {
        forall i | 0 <= i < |row| - 1 ensures !EndsInEscape(row[i]) {
          assert i > 0 ==> !EndsInEscape(row[1..][i - 1]);
        }
      }
    }
  }

  // Scanning a written row, with part of its first field already read: a field per
  // separator seen, and the row itself when all are seen.
  lemma {:induction false} ScanRowFrom(ended: Fields, cur: string, row: Fields, num: nat)
    requires row != [] && |ended| + |row| <= num
    ensures var (st, rest) := ScanLine(Scan(ended, cur, false), WriteLine(row), num);
            && rest == "" && |st.ended| == |ended| + Separators(row)
            && (Separable(row) ==> st.ended + [st.cur] == ended + row[0 := cur + row[0]])
    decreases |row|
  {
    hide ScanLine, WriteField;
    var f := row[0];
    var st := Scan(ended, cur, false);
    var st1 := Scan(ended, cur + f, EndsInEscape(f));
    if |row| == 1 {
      ScanField(st, f, "", num);
      ScanEnd(st1, num);
      assert WriteLine(row) == WriteField(f) + "";
      assert [st1.cur] == row[0 := cur + f];
    } else {
      var tail := row[1..];
      ScanField(st, f, ['\t'] + WriteLine(tail), num);
      assert WriteLine(row) == WriteField(f) + (['\t'] + WriteLine(tail));
      ScanChar(st1, '\t', WriteLine(tail), num);
      if EndsInEscape(f) {
        ScanRowFrom(ended, Step(st1, '\t').cur, tail, num);
      } else {
        ScanRowFrom(ended + [cur + f], "", tail, num);
        if Separable(row) { SeparableTail(row); }
        assert "" + tail[0] == tail[0];
        assert tail[0 := "" + tail[0]] == tail;
        assert ended + [cur + f] + tail == ended + row[0 := cur + f];
      }
    }
  }

  lemma ScanEnd(st: Scan, num: nat)
    ensures ScanLine(st, "", num) == (st, "")
  {
  }

  lemma SeparableTail(row: Fields)
    requires Separable(row) && row != []
    ensures Separable(row[1..])
  {
  }

  lemma ReadWrittenLine(row: Fields)
    requires row != []
    ensures ReadLine(WriteLine(row), |row|) == Some(row) <==> Separable(row)
    ensures Separable(row) || ReadLine(WriteLine(row), |row|) == None
  {
    hide ScanLine, WriteLine, Separators;
    ScanRowFrom([], "", row, |row|);
    SeparatorsBound(row);
    assert "" + row[0] == row[0];
    assert row[0 := "" + row[0]] == row;
    var none: Fields := [];
    assert none + row == row;
  }

  lemma {:induction false} WriteFieldChars(f: string, c: char)
    requires c != '\\'
    ensures c in WriteField(f) <==> c in f
  {
    if f != "" {
      WriteFieldChars(f[1..], c);
      assert f == [f[0]] + f[1..];
    }
  }

  lemma {:induction false} WriteLineNewlines(row: Fields)
    ensures '\n' in WriteLine(row) <==> !OneLine(row)
  {
    if row != [] {
      WriteFieldChars(row[0], '\n');
      if |row| > 1 {
        WriteLineNewlines(row[1..]);
        assert forall i :: 0 < i < |row| ==> row[i] == row[1..][i - 1];
      }
    }
  }

  lemma WriteLineStart(row: Fields)
    ensures WriteLine(row) != "" && WriteLine(row)[0] == '#' <==> Comment(row)
  {
    if row == [] { return; }
    if row[0] != "" { assert WriteField(row[0]) != ""; }
  }

  // The rows of a text that was written, one line at a time.
  lemma ReadFirst(line: string, rest: string, num: nat)
    requires '\n' !in line
    ensures ReadRows(line + "\n" + rest, num) ==
            var tail := ReadRows(rest, num);
            if line != "" && line[0] == '#' then tail
            else match ReadLine(line, num)
              case None => None
              case Some(row) => if tail.Some? then Some([row] + tail.value) else None
  {
    var text := line + "\n" + rest;
    FindAfter(line, '\n', rest);
    assert text == line + ['\n'] + rest;
    assert text[..|line|] == line && text[|line| + 1..] == rest;
  }

  // Whatever was read has no newline in a field, and at most one row per newline.
  lemma {:induction false} ScanKeeps(st: Scan, line: string, num: nat, c: char)
    requires c !in line && c !in st.cur && forall i :: 0 <= i < |st.ended| ==> c !in st.ended[i]
    ensures var st' := ScanLine(st, line, num).0;
            c !in st'.cur && forall i :: 0 <= i < |st'.ended| ==> c !in st'.ended[i]
    decreases |line|
  {
    if line != "" && !Stops(st, line[0], num) {
      ScanKeeps(Step(st, line[0]), line[1..], num, c);
    }
  }

  lemma {:induction false} ReadRowsOneLine(text: string, num: nat)
    requires ReadRows(text, num).Some?
    ensures forall i :: 0 <= i < |ReadRows(text, num).value| ==> OneLine(ReadRows(text, num).value[i])
    decreases |text|
  {
    var i := Find(text, '\n');
    if i < |text| {
      var line, rest := text[..i], text[i + 1..];
      ReadRowsOneLine(rest, num);
      ScanKeeps(Scan([], "", false), line, num, '\n');
      assert ReadLine(line, num).Some? ==> OneLine(ReadLine(line, num).value);
    }
  }

  ghost predicate AllReadable(rows: seq<Fields>)
  {
    forall i :: 0 <= i < |rows| ==> Readable(rows[i])
  }

  lemma {:induction false} ReadWrittenRows(rows: seq<Fields>, num: nat)
    requires num >= 1 && forall i :: 0 <= i < |rows| ==> |rows[i]| == num && OneLine(rows[i])
    ensures ReadRows(WriteRows(rows), num).Some? ==> |ReadRows(WriteRows(rows), num).value| <= |rows|
    ensures ReadRows(WriteRows(rows), num) == Some(rows) <==> AllReadable(rows)
    decreases |rows|
  {
    if rows == [] {
      FindNone("", '\n');
    } else {
      var row, tail := rows[0], rows[1..];
      assert WriteRows(rows) == WriteLine(row) + "\n" + WriteRows(tail);
      hide ReadRows, ReadLine, WriteLine, WriteRows, Separable, Comment, OneLine, AllReadable;
      ReadWrittenRows(tail, num);
      WriteLineNewlines(row);
      WriteLineStart(row);
      ReadWrittenLine(row);
      ReadFirst(WriteLine(row), WriteRows(tail), num);
      AllReadableFirst(rows);
      var r := ReadRows(WriteRows(tail), num);
      if !Comment(row) && Separable(row) && r.Some? { SameFirst(rows, r.value); }
    }
  }

  lemma SameFirst(rows: seq<Fields>, tail: seq<Fields>)
    requires rows != []
    ensures [rows[0]] + tail == rows <==> tail == rows[1..]
  {
    assert ([rows[0]] + tail)[1..] == tail;
  }

  lemma AllReadableFirst(rows: seq<Fields>)
    requires rows != []
    ensures AllReadable(rows) <==> Readable(rows[0]) && AllReadable(rows[1..])
  {
    hide Readable;
    assert rows == [rows[0]] + rows[1..];
  }

  // Reading back what was written gives the same rows exactly when no field holds a newline,
  // no row starts with '#' and no field but the last of a row ends in a backslash.
  lemma WrittenRowsRoundTrip(rows: seq<Fields>, num: nat)
    requires num >= 1 && forall i :: 0 <= i < |rows| ==> |rows[i]| == num
    ensures ReadRows(WriteRows(rows), num) == Some(rows) <==> AllReadable(rows)
  {
    if forall i :: 0 <= i < |rows| ==> OneLine(rows[i]) {
      ReadWrittenRows(rows, num);
    } else if ReadRows(WriteRows(rows), num) == Some(rows) {
      ReadRowsOneLine(WriteRows(rows), num);
    }
  }

  // -------------------------------------------------------------------------
  // Rows that cannot be taken for others: they do not start with '#', and have no newline in their last field.

  predicate Tame(row: Fields)
  {
    row != [] && !Comment(row) && '\n' !in row[|row| - 1]
  }

  ghost predicate AllTame(rows: seq<Fields>, num: nat)
  {
    forall i :: 0 <= i < |rows| ==> |rows[i]| == num && Tame(rows[i])
  }

  lemma {:induction false} WriteFieldSplit(a: string, b: string)
    ensures WriteField(a + b) == WriteField(a) + WriteField(b)
  {
    if a == "" {
      assert a + b == b;
    } else {
      assert (a + b)[1..] == a[1..] + b;
      WriteFieldSplit(a[1..], b);
    }
  }

  lemma NewlineWritten(a: string, b: string)
    ensures WriteField(a + "\n" + b) == WriteField(a) + "\n" + WriteField(b)
  {
    WriteFieldSplit(a + "\n", b);
    WriteFieldSplit(a, "\n");
    assert WriteField("\n") == WriteChar('\n') + WriteField("");
  }

  lemma LineFrom(f: string, tail: Fields)
    requires tail != []
    ensures WriteLine([f] + tail) == WriteField(f) + "\t" + WriteLine(tail)
  {
    assert ([f] + tail)[1..] == tail;
    hide WriteField;
  }

  // A row with a newline before its last field: its first line is that of a shorter row.
  lemma {:induction false} FirstLine(row: Fields) returns (head: Fields, rest: string)
    requires row != [] && !OneLine(row) && '\n' !in row[|row| - 1]
    ensures 0 < |head| < |row| && OneLine(head) && WriteLine(row) == WriteLine(head) + "\n" + rest
    ensures head[0] <= row[0]
    decreases |row|
  {
    var f, tail := row[0], row[1..];
    assert row == [f] + tail;
    LineFrom(f, tail);
    if '\n' in f {
      var p := Find(f, '\n');
      var a, b := f[..p], f[p + 1..];
      assert f == a + "\n" + b;
      NewlineWritten(a, b);
      assert WriteLine([a]) == WriteField(a);
      hide WriteField, WriteLine;
      Rejoin(WriteField(a), "\n", WriteField(b), "\t", WriteLine(tail));
      head, rest := [a], WriteField(b) + "\t" + WriteLine(tail);
    } else {
      hide WriteField, WriteLine;
      var more, after := FirstLine(tail);
      LineFrom(f, more);
      head, rest := [f] + more, after;
      Rejoin(WriteField(f), "\t", WriteLine(more), "\n", after);
    }
  }

  lemma Rejoin(a: string, b: string, c: string, d: string, e: string)
    ensures a + b + (c + d + e) == a + b + c + d + e
  {
  }

  // The read fails at the first row that is not readable.
  lemma UnreadableFails(row: Fields, rest: string, num: nat)
    requires |row| == num && Tame(row) && !Readable(row)
    ensures ReadRows(WriteLine(row) + "\n" + rest, num) == None
  {
    hide ReadRows, ScanLine, WriteLine, Separators;
    if OneLine(row) {
      WriteLineNewlines(row);
      WriteLineStart(row);
      ReadWrittenLine(row);
      ReadFirst(WriteLine(row), rest, num);
    } else {
      var head, more := FirstLine(row);
      WriteLineNewlines(head);
      WriteLineStart(head);
      SeparatorsBound(head);
      ScanRowFrom([], "", head, num);
      ReadFirst(WriteLine(head), more + "\n" + rest, num);
      assert WriteLine(row) + "\n" + rest == WriteLine(head) + "\n" + (more + "\n" + rest);
    }
  }

  // Such rows are read back as they were, or not at all.
  lemma {:induction false} TameRowsRead(rows: seq<Fields>, num: nat)
    requires AllTame(rows, num)
    ensures ReadRows(WriteRows(rows), num) == if AllReadable(rows) then Some(rows) else None
    decreases |rows|
  {
    if rows == [] {
      FindNone("", '\n');
    } else {
      var row, tail := rows[0], rows[1..];
      assert WriteRows(rows) == WriteLine(row) + "\n" + WriteRows(tail);
      assert rows == [row] + tail;
      hide ReadRows, ReadLine, WriteLine, WriteRows, Separable, Comment, OneLine;
      AllReadableFirst(rows);
      if Readable(row) {
        TameRowsRead(tail, num);
        WriteLineNewlines(row);
        WriteLineStart(row);
        ReadWrittenLine(row);
        ReadFirst(WriteLine(row), WriteRows(tail), num);
      } else {
        UnreadableFails(row, WriteRows(tail), num);
      }
    }
  }

  // -------------------------------------------------------------------------
  // Lines that no row was written as: too few or too many fields, comments, and an unterminated last line.

  // The scanner stops at the separator of a field too many.
  lemma {:induction false} ScanTooMany(ended: Fields, row: Fields, num: nat)
    requires row != [] && Separable(row) && |ended| < num < |ended| + |row|
    ensures StopsAfter(ended, row, num)
    decreases |row|
  {
    hide ScanLine, WriteLine, StopsAfter, Separable;
    SeparableTail(row);
    if |ended| + 1 == num {
      StopsAtOnce(ended, row, num);
    } else {
      ScanTooMany(ended + [row[0]], row[1..], num);
      StopsLater(ended, row, num);
    }
  }

  ghost predicate StopsAfter(ended: Fields, row: Fields, num: nat)
    requires |ended| < num < |ended| + |row|
  {
    var (st, rest) := ScanLine(Scan(ended, "", false), WriteLine(row), num);
    var k := num - |ended|;
    st.ended + [st.cur] == ended + row[..k] && rest == WriteLine(row[k..])
  }

  lemma ScanFirst(ended: Fields, row: Fields, num: nat)
    requires |row| > 1 && Separable(row)
    ensures ScanLine(Scan(ended, "", false), WriteLine(row), num) ==
            ScanLine(Scan(ended, row[0], false), ['\t'] + WriteLine(row[1..]), num)
  {
    hide ScanLine, WriteField;
    ScanField(Scan(ended, "", false), row[0], ['\t'] + WriteLine(row[1..]), num);
    assert "" + row[0] == row[0] && !EndsInEscape(row[0]);
    assert WriteLine(row) == WriteField(row[0]) + (['\t'] + WriteLine(row[1..]));
  }

  lemma StopsAtOnce(ended: Fields, row: Fields, num: nat)
    requires |row| > 1 && Separable(row) && |ended| + 1 == num
    ensures StopsAfter(ended, row, num)
  {
    hide ScanLine, WriteLine, Separable;
    ScanFirst(ended, row, num);
    ScanStops(Scan(ended, row[0], false), WriteLine(row[1..]), num);
    assert row[..1] == [row[0]];
  }

  lemma StopsLater(ended: Fields, row: Fields, num: nat)
    requires |row| > 1 && Separable(row) && |ended| + 1 < num < |ended| + |row|
    requires StopsAfter(ended + [row[0]], row[1..], num)
    ensures StopsAfter(ended, row, num)
  {
    hide ScanLine, WriteLine, Separable;
    ScanFirst(ended, row, num);
    ScanChar(Scan(ended, row[0], false), '\t', WriteLine(row[1..]), num);
    var k := num - |ended|;
    assert row[..k] == [row[0]] + row[1..][..k - 1] && row[k..] == row[1..][k - 1..];
    assert ended + [row[0]] + row[1..][..k - 1] == ended + ([row[0]] + row[1..][..k - 1]);
  }

  lemma ScanStops(st: Scan, rest: string, num: nat)
    requires !st.esc && |st.ended| + 1 >= num
    ensures ScanLine(st, ['\t'] + rest, num) == (st, rest)
  {
    assert (['\t'] + rest)[1..] == rest;
  }

  lemma NothingWritten(row: Fields)
    requires row != []
    ensures WriteLine(row) == "" <==> row == [""]
  {
  }

  // A line with another number of fields is refused, but for one empty field too many, which goes unnoticed.
  lemma WrongWidthRefused(row: Fields, num: nat)
    requires row != [] && num >= 1 && Separable(row)
    ensures ReadLine(WriteLine(row), num) ==
            if |row| == num then Some(row)
            else if |row| == num + 1 && row[num] == "" then Some(row[..num])
            else None
  {
    hide ScanLine, WriteLine, Separators;
    var none: Fields := [];
    if |row| <= num {
      ScanRowFrom([], "", row, num);
      SeparatorsBound(row);
      assert "" + row[0] == row[0] && row[0 := row[0]] == row && none + row == row;
    } else {
      ScanTooMany([], row, num);
      NothingWritten(row[num..]);
      assert none + row[..num] == row[..num];
      assert row[num..] == [""] <==> |row| == num + 1 && row[num] == "";
    }
  }

  lemma CommentSkipped(c: string, rest: string, num: nat)
    requires '\n' !in c
    ensures ReadRows("#" + c + "\n" + rest, num) == ReadRows(rest, num)
  {
    hide ReadLine;
    ReadFirst("#" + c, rest, num);
  }

  // What follows the last newline is dropped.
  lemma {:induction false} LastLineDropped(text: string, tail: string, num: nat)
    requires '\n' !in tail
    ensures ReadRows(tail, num) == Some([])
    ensures ReadRows(text + "\n" + tail, num) == ReadRows(text + "\n", num)
    decreases |text|
  {
    hide ReadLine;
    FindNone(tail, '\n');
    FindNone("", '\n');
    assert text + "\n" == text + "\n" + "";
    if '\n' !in text {
      ReadFirst(text, tail, num);
      ReadFirst(text, "", num);
    } else {
      var i := Find(text, '\n');
      var line, more := text[..i], text[i + 1..];
      assert text + "\n" + tail == line + "\n" + (more + "\n" + tail);
      assert text + "\n" == line + "\n" + (more + "\n");
      hide ReadRows;
      LastLineDropped(more, tail, num);
      ReadFirst(line, more + "\n" + tail, num);
      ReadFirst(line, more + "\n", num);
    }
  }

  // -------------------------------------------------------------------------
  // The loops.

  method WriteText(rows: seq<Fields>) returns (text: string)
    requires forall i :: 0 <= i < |rows| ==> rows[i] != []
    ensures text == WriteRows(rows)
  {
    text := "";
    for i := 0 to |rows|
      invariant text + WriteRows(rows[i..]) == WriteRows(rows)
    {
      var buf := WriteLineText(rows[i]);
      assert rows[i..][1..] == rows[i + 1..];
      assert text + (WriteLine(rows[i]) + "\n" + WriteRows(rows[i + 1..]))
          == text + (WriteLine(rows[i]) + "\n") + WriteRows(rows[i + 1..]);
      text := text + buf;
    }
  }

  // A row: every field is followed by a tab, and the last tab becomes a newline.
  method WriteLineText(row: Fields) returns (buf: string)
    requires row != []
    ensures buf == WriteLine(row) + "\n"
  {
    buf := "";
    for j := 0 to |row|
      invariant j < |row| ==> buf + WriteLine(row[j..]) == WriteLine(row)
      invariant j == |row| ==> buf == WriteLine(row) + "\t"
    {
      assert row[j..][1..] == row[j + 1..];
      ghost var before := buf;
      buf := AppendField(buf, row[j]);
      if j + 1 < |row| {
        assert before + (WriteField(row[j]) + "\t" + WriteLine(row[j + 1..]))
            == before + WriteField(row[j]) + "\t" + WriteLine(row[j + 1..]);
      }
      buf := buf + "\t";
    }
    buf := buf[..|buf| - 1] + "\n";
  }

  method AppendField(start: string, f: string) returns (buf: string)
    ensures buf == start + WriteField(f)
  {
    hide WriteField;
    buf := start;
    var rest := f;
    while true
      invariant buf + WriteField(rest) == start + WriteField(f)
      decreases |rest|
    {
      WriteFieldFirst(buf, rest);
      if rest == "" { break; }
      ghost var before := buf;
      if rest[0] == '\t' { buf := buf + "\\"; }
      buf := buf + [rest[0]];
      assert buf == before + WriteChar(rest[0]);
      rest := rest[1..];
    }
  }

  lemma WriteFieldFirst(start: string, f: string)
    ensures start + WriteField(f) == if f == "" then start else start + WriteChar(f[0]) + WriteField(f[1..])
  {
  }

  // The inner loop of TXT_DB_read: splits a line in place.
  method ReadLineText(line: string, num: nat) returns (r: Option<Fields>)
    ensures r == ReadLine(line, num)
  {
    var ended: Fields, cur: string := [], "";
    var esc, f := false, 0;
    ghost var goal := ScanLine(Scan([], "", false), line, num);
    var stopped := false;
    while f < |line| && !stopped
      invariant f <= |line|
      invariant !stopped ==> ScanLine(Scan(ended, cur, esc), line[f..], num) == goal
      invariant stopped ==> (Scan(ended, cur, esc), line[f..]) == goal
      decreases |line| - f, !stopped
    {
      var c := line[f];
      assert line[f..][1..] == line[f + 1..];
      if c == '\t' && !esc {
        f := f + 1;
        if |ended| + 1 >= num {
          stopped := true;
        } else {
          ended, cur := ended + [cur], "";
        }
      } else {
        if c == '\t' && cur != "" { cur := cur[..|cur| - 1]; }
        esc := c == '\\';
        cur := cur + [c];
        f := f + 1;
      }
    }
    if |ended| + 1 != num || f < |line| { r := None; } else { r := Some(ended + [cur]); }
  }

  function Prepend(rows: seq<Fields>, r: Option<seq<Fields>>): Option<seq<Fields>>
  {
    if r.Some? then Some(rows + r.value) else None
  }

  lemma PrependNothing(r: Option<seq<Fields>>)
    ensures Prepend([], r) == r
  {
    if r.Some? {
      var rows: seq<Fields> := [];
      assert rows + r.value == r.value;
    }
  }

  lemma PrependTwice(a: seq<Fields>, b: seq<Fields>, r: Option<seq<Fields>>)
    ensures Prepend(a, Prepend(b, r)) == Prepend(a + b, r)
  {
    assert r.Some? ==> a + (b + r.value) == a + b + r.value;
  }

  // One line of the text.
  lemma ReadNext(text: string, num: nat)
    ensures var i := Find(text, '\n');
            if i == |text| then ReadRows(text, num) == Some([])
            else
              var line, tail := text[..i], ReadRows(text[i + 1..], num);
              var row := ReadLine(line, num);
              ReadRows(text, num)
              == if line != "" && line[0] == '#' then tail else if row.None? then None else Prepend([row.value], tail)
  {
  }

  // The outer loop of TXT_DB_read, a line at a time.
  method ReadText(text: string, num: nat) returns (r: Option<seq<Fields>>)
    ensures r == ReadRows(text, num)
  {
    hide ReadLine, ReadRows, Find, Prepend;
    var rows: seq<Fields>, rest := [], text;
    PrependNothing(ReadRows(text, num));
    while true
      invariant ReadRows(text, num) == Prepend(rows, ReadRows(rest, num))
      decreases |rest|
    {
      ReadNext(rest, num);
      var i := Find(rest, '\n');
      if i == |rest| {
        PrependEnds(rows);
        return Some(rows);
      }
      var line := rest[..i];
      rest := rest[i + 1..];
      if line == "" || line[0] != '#' {
        var row := ReadLineText(line, num);
        if row.None? {
          PrependEnds(rows);
          return None;
        }
        PrependTwice(rows, [row.value], ReadRows(rest, num));
        rows := rows + [row.value];
      }
    }
  }

  lemma PrependEnds(rows: seq<Fields>)
    ensures Prepend(rows, Some([])) == Some(rows) && Prepend(rows, None) == None
  {
    assert rows + [] == rows;
  }

  // A field that ends in a backslash hides the tab after it, and the row cannot be read.
  lemma BackslashHidesTab()
    ensures ReadRows(WriteRows([["a\\", "b"]]), 2) == None
  {
    var row := ["a\\", "b"];
    assert EndsInEscape(row[0]);
    ReadWrittenLine(row);
    WriteLineNewlines(row);
    WriteLineStart(row);
    ReadFirst(WriteLine(row), "", 2);
    assert [row][1..] == [] && WriteRows([row]) == WriteLine(row) + "\n" + "";
  }
}
