/**
 * The configutl command writes a configuration back in canonical form.  Here its printer is put against the reader of
 * configuration files: what print_escaped_value() writes, def_load_bio() is to read as the same value.
 */
module ConfEscape {
  import opened Prelude

  const BACKSPACE: char := 8 as char

  // -------------------------------------------------------------------------
  // The printer.

  // A character of a value as it is written.
  function Shown(first: bool, last: bool, c: char): string {
    if c == '\"' || c == '\'' || c == '#' || c == '\\' || c == '$' then ['\\', c]
    else if c == '\n' then "\\n"
    else if c == '\r' then "\\r"
    else if c == BACKSPACE then "\\b"
    else if c == '\t' then "\\t"
    else if c == ' ' && (first || last) then "\" \""
    else [c]
  }

  function Escaped(first: bool, value: string): string {
    if value == "" then "" else Shown(first, |value| == 1, value[0]) + Escaped(false, value[1..])
  }

  method PrintEscapedValue(value: string) returns (out: string)
    ensures out == Escaped(true, value)
  {
    hide Escaped, Shown;
    out := "";
    var p, first := value, true;
    while p != ""
      invariant Escaped(true, value) == out + Escaped(first, p)
      decreases |p|
    {
      EscapedFirst(first, p);
      Associative(out, Shown(first, |p| == 1, p[0]), Escaped(false, p[1..]));
      out := PrintChar(out, p[0], first, |p| == 1);
      p, first := p[1..], false;
    }
    assert Escaped(first, "") == "" by { EscapedFirst(first, ""); }
  }

  lemma EscapedFirst(first: bool, v: string)
    ensures Escaped(first, v) == if v == "" then "" else Shown(first, |v| == 1, v[0]) + Escaped(false, v[1..])
  {
  }

  lemma Associative(a: string, b: string, c: string)
    ensures a + (b + c) == a + b + c
  {
  }

  method PrintChar(before: string, c: char, first: bool, last: bool) returns (out: string)
    ensures out == before + Shown(first, last, c)
  {
    out := before;
    match c {
      case '\"' | '\'' | '#' | '\\' | '$' =>
        out := out + "\\";
        out := out + [c];
        assert "\\" + [c] == ['\\', c];
      case '\n' =>
        out := out + "\\n";
      case '\r' =>
        out := out + "\\r";
      case '\t' =>
        out := out + "\\t";
      case _ =>
        if c == BACKSPACE {
          out := out + "\\b";
        } else if c == ' ' && (first || last) {
          out := out + "\" \"";
        } else {
          out := out + [c];
        }
    }
  }

  datatype Entry = Entry(name: string, value: string)

  function LineText(e: Entry): string {
    e.name + " = " + Escaped(true, e.value)
  }

  function SectionText(entries: seq<Entry>): string {
    if entries == [] then "" else LineText(entries[0]) + "\n" + SectionText(entries[1..])
  }

  method PrintSection(entries: seq<Entry>) returns (out: string)
    ensures out == SectionText(entries)
  {
    out := "";
    var idx := 0;
    assert entries[0..] == entries;
    hide Escaped;
    while idx < |entries|
      invariant 0 <= idx <= |entries|
      invariant SectionText(entries) == out + SectionText(entries[idx..])
    {
      var value := entries[idx];
      assert entries[idx..][1..] == entries[idx + 1..];
      ghost var before := out;
      out := out + value.name + " = ";
      var shown := PrintEscapedValue(value.value);
      out := out + shown;
      out := out + "\n";
      LineAppended(before, value.name, shown, SectionText(entries[idx + 1..]));
      idx := idx + 1;
    }
  }

  lemma LineAppended(a: string, name: string, shown: string, rest: string)
    ensures a + (name + " = " + shown + "\n" + rest) == a + name + " = " + shown + "\n" + rest
  {
  }

  // -------------------------------------------------------------------------
  // The reader, for the default character table.

  predicate IsQuote(c: char) {
    c == '\"' || c == '\'' || c == '`'
  }

  predicate IsWs(c: char) {
    c == ' ' || c == '\t' || c == '\r' || c == '\n'
  }

  predicate IsAlnumPunct(c: char) {
    '0' <= c <= '9' || 'A' <= c <= 'Z' || 'a' <= c <= 'z' || c in "_!%&*+,-./;?@^|~"
  }

  function Decoded(c: char): char {
    match c
    case 'r' => '\r'
    case 'n' => '\n'
    case 'b' => BACKSPACE
    case 't' => '\t'
    case _ => c
  }

  function Prepend(s: string, r: Option<string>): Option<string> {
    if r.None? then None else Some(s + r.value)
  }

  // Variable expansion: for the text after a dollar, the value and the number of characters it stands for; None if it
  // fails.
  type Expand = string -> Option<(string, nat)>

  // str_copy(), outside or inside a quotation.
  function Copy(expand: Expand, quote: Option<char>, s: string): Option<string>
    decreases |s|
  {
    if s == "" then Some("")
    else if quote.Some? then
      if s[0] == quote.value then Copy(expand, None, s[1..])
      else if s[0] == '\\' then if |s| == 1 then Some("") else Prepend([s[1]], Copy(expand, quote, s[2..]))
      else Prepend([s[0]], Copy(expand, quote, s[1..]))
    else if IsQuote(s[0]) then Copy(expand, Some(s[0]), s[1..])
    else if s[0] == '\\' then if |s| == 1 then Some("") else Prepend([Decoded(s[1])], Copy(expand, None, s[2..]))
    else if s[0] == '$' then
      var e := expand(s[1..]);
      if e.None? || e.value.1 >= |s| then None else Prepend(e.value.0, Copy(expand, None, s[1 + e.value.1..]))
    else Prepend([s[0]], Copy(expand, None, s[1..]))
  }

  // clear_comments(): what is left of a line.
  function Uncommented(quote: Option<char>, s: string): string
    decreases |s|
  {
    if s == "" then ""
    else if s[0] == '\\' then if |s| == 1 then s else s[..2] + Uncommented(quote, s[2..])
    else if quote.Some? then [s[0]] + Uncommented(if s[0] == quote.value then None else quote, s[1..])
    else if s[0] == '#' then ""
    else [s[0]] + Uncommented(if IsQuote(s[0]) then Some(s[0]) else None, s[1..])
  }

  function EatWs(s: string): (r: string)
    ensures |r| <= |s|
  {
    if s != "" && IsWs(s[0]) then EatWs(s[1..]) else s
  }

  function TrimWs(s: string): string {
    if s != "" && IsWs(s[|s| - 1]) then TrimWs(s[..|s| - 1]) else s
  }

  function EatName(s: string): (k: nat)
    ensures k <= |s|
    decreases |s|
  {
    if s == "" then 0
    else if s[0] == '\\' then if |s| == 1 then 1 else 2 + EatName(s[2..])
    else if IsAlnumPunct(s[0]) then 1 + EatName(s[1..])
    else 0
  }

  // The length of the words before a closing bracket, with the blanks between them.
  function EatWords(s: string): (e: Option<nat>)
    ensures e.Some? ==> e.value < |s|
    decreases |s|
  {
    var k := EatName(s);
    var p := EatWs(s[k..]);
    if p != "" && p[0] == ']' then Some(k)
    else if p == "" || |p| == |s| then None
    else
      var more := EatWords(p);
      if more.None? then None else Some(|s| - |p| + more.value)
  }

  // A line is blank, starts a section, is a directive, or gives a value to a name of this or another section.
  datatype Line =
    | Blank
    | Section(name: string)
    | Directive(text: string)
    | Assign(section: Option<string>, entry: Entry)
    | Bad

  predicate HasPrefix(s: string, word: string) {
    |word| <= |s| && s[..|word|] == word
  }

  function ReadLine(expand: Expand, line: string): Line {
    var s := EatWs(Uncommented(None, line));
    if s == "" then Blank
    else if s[0] == '[' then ReadHeader(expand, EatWs(s[1..]))
    else
      var k := EatName(s);
      if HasPrefix(s[k..], "::") then ReadEntry(expand, Some(s[..k]), s[k + 2..]) else ReadEntry(expand, None, s)
  }

  function ReadHeader(expand: Expand, start: string): Line {
    var e := EatWords(start);
    if e.None? then Bad
    else
      var name := Copy(expand, None, start[..e.value]);
      if name.None? then Bad else Section(name.value)
  }

  // A name that starts with the word is one of a directive, unless a character follows that has no place there.
  predicate IsDirective(s: string, p: string, word: string) {
    HasPrefix(s, word) && (|p| != |s| - |word| || HasPrefix(p, "="))
  }

  function ReadEntry(expand: Expand, section: Option<string>, s: string): Line {
    var k := EatName(s);
    var p := EatWs(s[k..]);
    if IsDirective(s, p, ".pragma") || IsDirective(s, p, ".include") then Directive(s)
    else if !HasPrefix(p, "=") then Bad
    else
      var value := Copy(expand, None, TrimWs(EatWs(p[1..])));
      if value.None? then Bad else Assign(section, Entry(s[..k], value.value))
  }

  function TrimEol(s: string): string {
    if s != "" && (s[|s| - 1] == '\r' || s[|s| - 1] == '\n') then TrimEol(s[..|s| - 1]) else s
  }

  predicate Continues(buf: string) {
    buf != "" && buf[|buf| - 1] == '\\' && (|buf| == 1 || buf[|buf| - 2] != '\\')
  }

  // The lines of a text; pending holds the lines before that ended in a backslash.
  function Lines(pending: Option<string>, text: string): seq<string>
    decreases |text|
  {
    if text == "" then if pending.Some? then [pending.value] else []
    else
      var e := Find(text, '\n');
      var rest := if e < |text| then text[e + 1..] else "";
      var buf := (if pending.Some? then pending.value else "") + TrimEol(text[..e]);
      if Continues(buf) then Lines(Some(buf[..|buf| - 1]), rest) else [buf] + Lines(None, rest)
  }

  // What is read from a text in which variables always stand for the same.
  function ReadLines(expand: Expand, text: string): (r: seq<Line>)
    ensures |r| == |Lines(None, text)|
  {
    var lines := Lines(None, text);
    seq(|lines|, i requires 0 <= i < |lines| => ReadLine(expand, lines[i]))
  }

  // -------------------------------------------------------------------------
  // Reading what was printed, one character at a time.

  lemma CopyShown(expand: Expand, first: bool, last: bool, c: char, rest: string)
    ensures Copy(expand, None, Shown(first, last, c) + rest)
         == if c == '`' then Copy(expand, Some('`'), rest) else Prepend([c], Copy(expand, None, rest))
  {
    var t := Shown(first, last, c);
    var s := t + rest;
    if |t| == 1 {
      assert s[1..] == rest;
    } else if |t| == 2 {
      assert s[2..] == rest;
    } else {
      var u := s[1..];
      assert u[0] == ' ' && u[1..][0] == '\"' && u[1..][1..] == rest;
      assert Copy(expand, Some('\"'), u[1..]) == Copy(expand, None, rest);
    }
  }

  // Inside back quotes the text is copied without being decoded.
  function Undecoded(first: bool, last: bool, c: char): string {
    var t := Shown(first, last, c);
    if c == '`' then "" else if |t| == 2 then [t[1]] else t
  }

  lemma CopyQuotedChar(expand: Expand, c: char, rest: string)
    requires c != '`' && c != '\\'
    ensures Copy(expand, Some('`'), [c] + rest) == Prepend([c], Copy(expand, Some('`'), rest))
  {
    assert ([c] + rest)[1..] == rest;
  }

  lemma CopyQuotedPair(expand: Expand, c: char, rest: string)
    ensures Copy(expand, Some('`'), ['\\', c] + rest) == Prepend([c], Copy(expand, Some('`'), rest))
  {
    assert (['\\', c] + rest)[2..] == rest;
  }

  lemma CopyQuotedSpace(expand: Expand, rest: string)
    ensures Copy(expand, Some('`'), "\" \"" + rest) == Prepend("\" \"", Copy(expand, Some('`'), rest))
  {
    hide Copy;
    var r := Copy(expand, Some('`'), rest);
    CopyQuotedChar(expand, '\"', rest);
    CopyQuotedChar(expand, ' ', ['\"'] + rest);
    CopyQuotedChar(expand, '\"', [' '] + (['\"'] + rest));
    assert "\" \"" + rest == ['\"'] + ([' '] + (['\"'] + rest));
    assert r.Some? ==> ['\"'] + ([' '] + (['\"'] + r.value)) == "\" \"" + r.value;
  }

  lemma CopyQuotedEnd(expand: Expand, rest: string)
    ensures Copy(expand, Some('`'), ['`'] + rest) == Prepend("", Copy(expand, None, rest))
  {
    assert (['`'] + rest)[1..] == rest;
    hide Copy;
    var r := Copy(expand, None, rest);
    assert r.Some? ==> "" + r.value == r.value;
  }

  lemma CopyQuotedShown(expand: Expand, first: bool, last: bool, c: char, rest: string)
    ensures Copy(expand, Some('`'), Shown(first, last, c) + rest)
         == Prepend(Undecoded(first, last, c), Copy(expand, if c == '`' then None else Some('`'), rest))
  {
    hide Copy, Prepend;
    var t := Shown(first, last, c);
    if |t| == 2 {
      CopyQuotedPair(expand, t[1], rest);
    } else if |t| == 3 {
      CopyQuotedSpace(expand, rest);
    } else if c == '`' {
      CopyQuotedEnd(expand, rest);
    } else {
      CopyQuotedChar(expand, c, rest);
    }
  }

  lemma {:induction false} CopyEscaped(expand: Expand, first: bool, v: string)
    requires '`' !in v
    ensures Copy(expand, None, Escaped(first, v)) == Some(v)
  {
    if v != "" {
      hide Copy, Shown;
      CopyEscaped(expand, false, v[1..]);
      CopyShown(expand, first, |v| == 1, v[0], Escaped(false, v[1..]));
      assert v == [v[0]] + v[1..];
    }
  }

  lemma {:induction false} CopyDropsBackquotes(expand: Expand, quoted: bool, first: bool, v: string)
    ensures var r := Copy(expand, if quoted then Some('`') else None, Escaped(first, v)); r.Some? && '`' !in r.value
    decreases |v|
  {
    if v != "" {
      var rest, c := Escaped(false, v[1..]), v[0];
      CopyDropsBackquotes(expand, if c == '`' then !quoted else quoted, false, v[1..]);
      assert '`' !in Undecoded(first, |v| == 1, c);
      hide Copy, Shown, Undecoded;
      if quoted {
        CopyQuotedShown(expand, first, |v| == 1, c, rest);
      } else {
        CopyShown(expand, first, |v| == 1, c, rest);
      }
    }
  }

  /** A printed value is copied back as it was exactly if it has no back quote. */
  lemma CopyUndoesEscaped(expand: Expand, v: string)
    ensures Copy(expand, None, Escaped(true, v)) == Some(v) <==> '`' !in v
  {
    if '`' !in v { CopyEscaped(expand, true, v); } else { CopyDropsBackquotes(expand, false, true, v); }
  }

  lemma BackquotesAreLost(expand: Expand)
    ensures Escaped(true, "`a`") == "`a`" && Copy(expand, None, "`a`") == Some("a")
  {
    var s := "`a`";
    assert s[1..] == "a`" && s[1..][1..] == "`" && s[1..][1..][1..] == "";
    assert Escaped(false, "`") == "`" && Escaped(false, "a`") == "a`";
    assert Copy(expand, Some('`'), "`") == Some("");
    CopyQuotedChar(expand, 'a', "`");
    assert "a`" == ['a'] + "`" && ['a'] + "" == "a";
    assert Escaped(true, s) == "`" + Escaped(false, "a`");
  }

  // -------------------------------------------------------------------------
  // Printed values in a line of text.

  // The characters that are neither quoted nor behind a backslash.
  function Bare(quote: Option<char>, s: string): string
    decreases |s|
  {
    if s == "" then ""
    else if s[0] == '\\' then if |s| == 1 then "" else Bare(quote, s[2..])
    else if quote.Some? then Bare(if s[0] == quote.value then None else quote, s[1..])
    else if IsQuote(s[0]) then Bare(Some(s[0]), s[1..])
    else [s[0]] + Bare(None, s[1..])
  }

  function BackQuote(quoted: bool): Option<char> {
    if quoted then Some('`') else None
  }

  lemma ScanPair(quote: Option<char>, c: char, rest: string)
    ensures Uncommented(quote, ['\\', c] + rest) == ['\\', c] + Uncommented(quote, rest)
    ensures Bare(quote, ['\\', c] + rest) == Bare(quote, rest)
  {
    var s := ['\\', c] + rest;
    assert s[2..] == rest && s[..2] == ['\\', c];
  }

  lemma ScanChar(quoted: bool, c: char, rest: string)
    requires c != '\\' && c != '#' && c != '\"' && c != '\''
    ensures var then' := BackQuote(if c == '`' then !quoted else quoted);
            && Uncommented(BackQuote(quoted), [c] + rest) == [c] + Uncommented(then', rest)
            && Bare(BackQuote(quoted), [c] + rest) == (if quoted || c == '`' then "" else [c]) + Bare(then', rest)
  {
    assert ([c] + rest)[1..] == rest;
  }

  lemma ScanShown(quoted: bool, first: bool, last: bool, c: char, rest: string)
    ensures var t, then' := Shown(first, last, c), BackQuote(if c == '`' then !quoted else quoted);
            && Uncommented(BackQuote(quoted), t + rest) == t + Uncommented(then', rest)
            && Bare(BackQuote(quoted), t + rest)
               == (if quoted || |t| > 1 || c == '`' then "" else [c]) + Bare(then', rest)
  {
    hide Uncommented, Bare, BackQuote;
    var t := Shown(first, last, c);
    if |t| == 1 {
      ScanChar(quoted, c, rest);
    } else if |t| == 2 {
      ScanPair(BackQuote(quoted), t[1], rest);
    } else {
      ScanSpace(quoted, rest);
    }
  }

  lemma ScanSpace(quoted: bool, rest: string)
    ensures var q, s := BackQuote(quoted), "\" \"" + rest;
            Uncommented(q, s) == "\" \"" + Uncommented(q, rest) && Bare(q, s) == Bare(q, rest)
  {
    var q, s := BackQuote(quoted), "\" \"" + rest;
    var inside := if quoted then q else Some('\"');
    var u := s[1..];
    var w := u[1..];
    assert s[0] == '\"' && u[0] == ' ' && w[0] == '\"' && w[1..] == rest;
    assert Uncommented(inside, w) == ['\"'] + Uncommented(q, rest) && Bare(inside, w) == Bare(q, rest);
    assert Uncommented(inside, u) == [' '] + Uncommented(inside, w) && Bare(inside, u) == Bare(inside, w);
    assert Uncommented(q, s) == ['\"'] + Uncommented(inside, u) && Bare(q, s) == Bare(inside, u);
  }

  lemma {:induction false} ScanEscaped(quoted: bool, first: bool, v: string)
    ensures Uncommented(BackQuote(quoted), Escaped(first, v)) == Escaped(first, v)
    ensures var b := Bare(BackQuote(quoted), Escaped(first, v)); '\n' !in b && '#' !in b && '$' !in b
    decreases |v|
  {
    if v != "" {
      var c := v[0];
      ScanEscaped(if c == '`' then !quoted else quoted, false, v[1..]);
      ScanShown(quoted, first, |v| == 1, c, Escaped(false, v[1..]));
      hide Uncommented, Bare, Escaped;
    }
  }

  predicate Solid(s: string) {
    s != "" ==> !IsWs(s[|s| - 1]) && !Continues(s)
  }

  lemma ShownEnds(first: bool, last: bool, c: char)
    ensures var t := Shown(first, last, c);
            t != "" && '\n' !in t && (first ==> !IsWs(t[0])) && (last ==> Solid(t))
  {
  }

  // No blank and no continuation mark at the end, no line end anywhere.
  lemma {:induction false} EscapedEnds(first: bool, v: string)
    ensures Solid(Escaped(first, v)) && '\n' !in Escaped(first, v)
    ensures v == "" <==> Escaped(first, v) == ""
    ensures v != "" && first ==> !IsWs(Escaped(first, v)[0])
    decreases |v|
  {
    if v != "" {
      var t, rest := Shown(first, |v| == 1, v[0]), Escaped(false, v[1..]);
      EscapedEnds(false, v[1..]);
      ShownEnds(first, |v| == 1, v[0]);
      hide Shown;
      if |v| == 1 {
        assert t + "" == t;
      } else {
        hide Escaped;
        assert (t + rest)[|t + rest| - 1] == rest[|rest| - 1];
        assert |rest| > 1 ==> (t + rest)[|t + rest| - 2] == rest[|rest| - 2];
      }
    }
  }

  // The names that a configuration can have: the reader keeps them as they stand in the file.
  predicate Named(n: string) {
    if n == "" then true
    else if n[0] == '\\' then |n| >= 2 && Named(n[2..])
    else IsAlnumPunct(n[0]) && Named(n[1..])
  }

  predicate NameOk(n: string) {
    Named(n) && '\n' !in n && !HasPrefix(n, ".pragma") && !HasPrefix(n, ".include")
  }

  lemma {:induction false} EatNameOf(n: string, rest: string)
    requires Named(n) && rest != "" && (rest[0] == ' ' || rest[0] == '=')
    ensures EatName(n + rest) == |n|
    decreases |n|
  {
    var s := n + rest;
    if n == "" {
      assert s == rest;
    } else if n[0] == '\\' {
      assert s[2..] == n[2..] + rest;
      EatNameOf(n[2..], rest);
    } else {
      assert s[1..] == n[1..] + rest;
      EatNameOf(n[1..], rest);
    }
  }

  lemma {:induction false} UncommentedName(n: string, rest: string)
    requires Named(n)
    ensures Uncommented(None, n + rest) == n + Uncommented(None, rest)
    decreases |n|
  {
    hide Uncommented, IsAlnumPunct;
    var s := n + rest;
    if n == "" {
      assert s == rest && "" + Uncommented(None, rest) == Uncommented(None, rest);
    } else if n[0] == '\\' {
      UncommentedName(n[2..], rest);
      ScanPair(None, n[1], n[2..] + rest);
      assert s == ['\\', n[1]] + (n[2..] + rest);
      assert n == ['\\', n[1]] + n[2..];
    } else {
      UncommentedName(n[1..], rest);
      NameChar(n[0]);
      UncommentedChar(n[0], n[1..] + rest);
      assert s == [n[0]] + (n[1..] + rest);
      assert n == [n[0]] + n[1..];
    }
  }

  lemma NameChar(c: char)
    requires IsAlnumPunct(c)
    ensures !IsQuote(c) && c != '#' && c != '[' && !IsWs(c)
  {
  }

  lemma UncommentedChar(c: char, rest: string)
    requires !IsQuote(c) && c != '\\' && c != '#'
    ensures Uncommented(None, [c] + rest) == [c] + Uncommented(None, rest)
  {
    assert ([c] + rest)[1..] == rest;
  }

  // A line is not taken for a directive because of what follows its name.
  lemma NoDirective(n: string, rest: string, word: string)
    requires ' ' !in word && rest != "" && rest[0] == ' ' && !HasPrefix(n, word)
    ensures !HasPrefix(n + rest, word)
  {
    var s := n + rest;
    if |word| > |n| {
      assert s[|n|] == ' ';
    } else {
      assert s[..|word|] == n[..|word|];
    }
  }

  lemma SpaceBefore(e: string)
    requires e != "" ==> !IsWs(e[0])
    ensures EatWs([' '] + e) == e
  {
    assert ([' '] + e)[1..] == e;
  }

  // The steps of the reader on an entry.
  lemma EntryRead(expand: Expand, s: string, k: nat, e: string)
    requires EatName(s) == k && EatWs(s[k..]) == ['='] + ([' '] + e)
    requires !HasPrefix(s, ".pragma") && !HasPrefix(s, ".include")
    requires (e != "" ==> !IsWs(e[0]) && !IsWs(e[|e| - 1])) && Copy(expand, None, e).Some?
    ensures ReadEntry(expand, None, s) == Assign(None, Entry(s[..k], Copy(expand, None, e).value))
  {
    assert TrimWs(e) == e;
    SpaceBefore(e);
    hide Copy, EatName, EatWs, TrimWs;
    var p := EatWs(s[k..]);
    assert p[1..] == [' '] + e && p[..1] == "=";
    hide HasPrefix;
    assert HasPrefix(p, "=") by { assert HasPrefix(p, "=") == (1 <= |p| && p[..1] == "="); }
  }

  lemma LineUncommented(e: Entry)
    requires Named(e.name)
    ensures Uncommented(None, LineText(e)) == LineText(e)
  {
    hide Uncommented, Named, Escaped;
    var shown := Escaped(true, e.value);
    ScanEscaped(false, true, e.value);
    UncommentedChar(' ', shown);
    UncommentedChar('=', [' '] + shown);
    UncommentedChar(' ', ['='] + ([' '] + shown));
    var t := [' '] + (['='] + ([' '] + shown));
    UncommentedName(e.name, t);
    assert LineText(e) == e.name + t;
  }

  // Where the reader finds the name of a printed line.
  lemma LineStart(e: Entry)
    requires Named(e.name)
    ensures var t := ['='] + ([' '] + Escaped(true, e.value));
            var s := if e.name == "" then t else e.name + ([' '] + t);
            && EatWs(LineText(e)) == s && s != "" && s[0] != '['
            && EatName(s) == |e.name| && EatWs(s[|e.name|..]) == t
            && s[..|e.name|] == e.name && !HasPrefix(s[|e.name|..], "::")
  {
    var t := ['='] + ([' '] + Escaped(true, e.value));
    hide Escaped, IsAlnumPunct;
    SpaceBefore(t);
    assert LineText(e) == e.name + ([' '] + t);
    if e.name == "" {
      assert "" + ([' '] + t) == [' '] + t;
      EatNameOf("", t);
      assert "" + t == t && t[0..] == t && t[..0] == "" && t[..2][0] == '=';
      assert EatWs(t) == t;
    } else {
      if e.name[0] != '\\' { NameChar(e.name[0]); }
      EatNameOf(e.name, [' '] + t);
      var s := e.name + ([' '] + t);
      assert s[|e.name|..] == [' '] + t && s[..|e.name|] == e.name && ([' '] + t)[..2][0] == ' ';
      assert s[0] == e.name[0] && EatWs(s) == s;
    }
  }

  // A printed line is read as one entry, whatever its value.
  lemma LineRead(expand: Expand, e: Entry)
    requires NameOk(e.name)
    ensures var value := Copy(expand, None, Escaped(true, e.value));
            value.Some? && ReadLine(expand, LineText(e)) == Assign(None, Entry(e.name, value.value))
  {
    hide Uncommented, Copy, ReadEntry, ReadHeader, Escaped, EatWs, EatName, LineText, Named, IsAlnumPunct;
    var shown := Escaped(true, e.value);
    var t := ['='] + ([' '] + shown);
    var s := if e.name == "" then t else e.name + ([' '] + t);
    LineUncommented(e);
    LineStart(e);
    CopyDropsBackquotes(expand, false, true, e.value);
    EscapedEnds(true, e.value);
    if e.name == "" {
      assert |t| >= 7 ==> t[..7][0] == '=';
      assert |t| >= 8 ==> t[..8][0] == '=';
    } else {
      NoDirective(e.name, [' '] + t, ".pragma");
      NoDirective(e.name, [' '] + t, ".include");
    }
    hide HasPrefix;
    EntryRead(expand, s, |e.name|, shown);
  }

  // -------------------------------------------------------------------------
  // A whole section.

  function Assigns(entries: seq<Entry>): seq<Line> {
    seq(|entries|, i requires 0 <= i < |entries| => Assign(None, entries[i]))
  }

  function LineTexts(entries: seq<Entry>): (r: seq<string>)
    ensures |r| == |entries| && forall i :: 0 <= i < |r| ==> r[i] == LineText(entries[i])
  {
    if entries == [] then [] else [LineText(entries[0])] + LineTexts(entries[1..])
  }

  // What a printed entry is read as.
  function Reread(expand: Expand, e: Entry): Entry {
    var value := Copy(expand, None, Escaped(true, e.value));
    Entry(e.name, if value.None? then "" else value.value)
  }

  lemma LineIsWhole(e: Entry)
    requires '\n' !in e.name
    ensures '\n' !in LineText(e) && TrimEol(LineText(e)) == LineText(e) && !Continues(LineText(e))
  {
    hide Escaped;
    var shown := Escaped(true, e.value);
    EscapedEnds(true, e.value);
    var line := LineText(e);
    assert shown == "" ==> line[|line| - 1] == ' ';
    assert shown != "" ==> line[|line| - 1] == shown[|shown| - 1];
    assert |shown| >= 2 ==> line[|line| - 2] == shown[|shown| - 2];
  }

  // One line off the front of a text.
  lemma FirstOfLines(line: string, rest: string)
    requires '\n' !in line && TrimEol(line) == line && !Continues(line)
    ensures Lines(None, line + "\n" + rest) == [line] + Lines(None, rest)
  {
    FindAfter(line, '\n', rest);
    hide Find, TrimEol, Continues;
    var text := line + ['\n'] + rest;
    assert line + "\n" + rest == text;
    assert text[..|line|] == line && text[|line| + 1..] == rest && "" + line == line;
  }

  ghost predicate NamesOk(entries: seq<Entry>) {
    forall i :: 0 <= i < |entries| ==> NameOk(entries[i].name)
  }

  lemma EntryFirst(entries: seq<Entry>, tail: string)
    requires entries != []
    ensures SectionText(entries) + tail == LineText(entries[0]) + "\n" + (SectionText(entries[1..]) + tail)
  {
    hide LineText;
    Associative(LineText(entries[0]) + "\n", SectionText(entries[1..]), tail);
  }

  // The first entry of a section, and what follows.
  lemma EntryLine(entries: seq<Entry>, tail: string)
    requires entries != [] && NameOk(entries[0].name)
    ensures Lines(None, SectionText(entries) + tail)
         == [LineText(entries[0])] + Lines(None, SectionText(entries[1..]) + tail)
  {
    var e := entries[0];
    NameOkWhole(e.name);
    hide *;
    EntryFirst(entries, tail);
    LineIsWhole(e);
    FirstOfLines(LineText(e), SectionText(entries[1..]) + tail);
  }

  // A printed section has one line for each entry, and then what follows has its own.
  lemma {:induction false} SectionLines(entries: seq<Entry>, tail: string)
    requires NamesOk(entries)
    ensures Lines(None, SectionText(entries) + tail) == LineTexts(entries) + Lines(None, tail)
    decreases |entries|
  {
    hide NameOk, LineText, SectionText, Lines;
    if entries == [] {
      NoEntries(tail);
    } else {
      assert NameOk(entries[0].name);
      SectionLines(entries[1..], tail);
      EntryLine(entries, tail);
      var more := Lines(None, tail);
      assert [LineText(entries[0])] + (LineTexts(entries[1..]) + more) == LineTexts(entries) + more;
    }
  }

  lemma NoEntries(tail: string)
    ensures SectionText([]) + tail == tail && LineTexts([]) + Lines(None, tail) == Lines(None, tail)
  {
    hide Lines;
    assert "" + tail == tail;
  }

  lemma NameOkWhole(n: string)
    requires NameOk(n)
    ensures '\n' !in n
  {
  }

  ghost predicate NoBackQuote(entries: seq<Entry>) {
    forall i :: 0 <= i < |entries| ==> '`' !in entries[i].value
  }

  lemma RereadIff(expand: Expand, e: Entry)
    ensures Reread(expand, e) == e <==> '`' !in e.value
  {
    hide Copy, Escaped;
    CopyUndoesEscaped(expand, e.value);
    CopyDropsBackquotes(expand, false, true, e.value);
  }

  // An entry is read as its own assignment exactly if its value has no back quote.
  lemma EntryIff(expand: Expand, e: Entry)
    requires NameOk(e.name)
    ensures ReadLine(expand, LineText(e)) == Assign(None, Reread(expand, e))
    ensures ReadLine(expand, LineText(e)) == Assign(None, e) <==> '`' !in e.value
  {
    hide ReadLine, LineText, NameOk, Copy, Escaped;
    LineRead(expand, e);
    RereadIff(expand, e);
  }

  /** The printed form of a section is read back as the section exactly if no value in it has a back quote. */
  lemma SectionUndoes(expand: Expand, entries: seq<Entry>)
    requires NamesOk(entries)
    ensures ReadLines(expand, SectionText(entries)) == Assigns(entries) <==> NoBackQuote(entries)
  {
    var lines := ReadLines(expand, SectionText(entries));
    assert Lines(None, "") == [] && SectionText(entries) + "" == SectionText(entries);
    SectionLines(entries, "");
    hide Lines, SectionText, NameOk, ReadLine, LineText;
    assert LineTexts(entries) + [] == LineTexts(entries);
    forall i | 0 <= i < |entries| ensures lines[i] == Assigns(entries)[i] <==> '`' !in entries[i].value {
      EntryIff(expand, entries[i]);
    }
  }
}
