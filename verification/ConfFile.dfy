/**
 * The whole file that the configutl command writes: an optional comment, the default section, and every other section
 * under its header.  The name in a header is written as it is, so it is the reader that decides which names survive.
 */
module ConfFile {
  import opened Prelude
  import opened ConfEscape

  datatype Group = Group(name: string, entries: seq<Entry>)

  const COMMENT := "# This configuration file was linearized " + "and expanded from "

  function HeaderText(name: string): string {
    "[" + name + "]"
  }

  function GroupText(g: Group): string {
    "\n" + HeaderText(g.name) + "\n" + SectionText(g.entries)
  }

  function GroupsText(groups: seq<Group>): string {
    if groups == [] then "" else GroupText(groups[0]) + GroupsText(groups[1..])
  }

  // The lines of sections whose headers are one line each.
  function GroupLines(g: Group): seq<string> {
    ["", HeaderText(g.name)] + LineTexts(g.entries)
  }

  function GroupsLines(groups: seq<Group>): seq<string> {
    if groups == [] then [] else GroupLines(groups[0]) + GroupsLines(groups[1..])
  }

  // -------------------------------------------------------------------------
  // The names that a header can carry.

  predicate Plain(s: string) {
    forall i :: 0 <= i < |s| ==> IsAlnumPunct(s[i]) || IsWs(s[i])
  }

  // Words of name characters with blanks between them, on one line.
  predicate GoodName(n: string) {
    Plain(n) && '\n' !in n && (n != "" ==> !IsWs(n[0]) && !IsWs(n[|n| - 1]))
  }

  lemma PlainChar(c: char)
    requires IsAlnumPunct(c) || IsWs(c)
    ensures !IsQuote(c) && c != '\\' && c != '#' && c != '$' && c != '[' && c != ']' && !(IsAlnumPunct(c) && IsWs(c))
  {
  }

  lemma {:induction false} CopyPlain(expand: Expand, s: string)
    requires Plain(s)
    ensures Copy(expand, None, s) == Some(s)
  {
    if s != "" {
      PlainChar(s[0]);
      CopyPlain(expand, s[1..]);
      hide IsAlnumPunct, IsWs, IsQuote;
      assert s == [s[0]] + s[1..];
    }
  }

  lemma {:induction false} UncommentedPlain(s: string, tail: string)
    requires Plain(s)
    ensures Uncommented(None, s + tail) == s + Uncommented(None, tail)
  {
    hide Uncommented, IsAlnumPunct, IsWs, IsQuote;
    if s == "" {
      assert "" + tail == tail && "" + Uncommented(None, tail) == Uncommented(None, tail);
    } else {
      PlainChar(s[0]);
      UncommentedPlain(s[1..], tail);
      UncommentedChar(s[0], s[1..] + tail);
      assert s + tail == [s[0]] + (s[1..] + tail) && s == [s[0]] + s[1..];
    }
  }

  lemma HeaderUncommented(n: string)
    requires Plain(n)
    ensures Uncommented(None, HeaderText(n)) == HeaderText(n)
  {
    hide Uncommented, Plain;
    UncommentedChar(']', "");
    assert Uncommented(None, "") == "" by { NothingUncommented(); }
    UncommentedPlain(n, "]");
    UncommentedChar('[', n + "]");
    HeaderParts(n);
    assert "]" == [']'] + "";
  }

  lemma NothingUncommented()
    ensures Uncommented(None, "") == ""
  {
  }

  // A run of name characters, and then a run of blanks.
  lemma {:induction false} NameRun(s: string, tail: string)
    requires Plain(s) && tail != "" && (tail[0] == ']' || IsWs(tail[0]))
    ensures var k := EatName(s + tail); k <= |s| && (k < |s| ==> IsWs(s[k])) && (s != "" && !IsWs(s[0]) ==> k > 0)
  {
    if s == "" {
      assert s + tail == tail;
    } else {
      PlainChar(s[0]);
      assert (s + tail)[1..] == s[1..] + tail;
      NameRun(s[1..], tail);
    }
  }

  lemma {:induction false} BlankRun(s: string, tail: string) returns (m: nat)
    requires Plain(s) && tail != "" && tail[0] == ']'
    ensures m <= |s| && EatWs(s + tail) == s[m..] + tail && (m < |s| ==> !IsWs(s[m]))
    ensures (s != "" && IsWs(s[0]) ==> m > 0) && forall i :: 0 <= i < m ==> IsWs(s[i])
  {
    hide IsAlnumPunct;
    if s != "" && IsWs(s[0]) {
      assert (s + tail)[1..] == s[1..] + tail;
      m := BlankRun(s[1..], tail);
      assert s[1..][m..] == s[m + 1..];
      m := m + 1;
    } else {
      m := 0;
      assert s[0..] == s && EatWs(s + tail) == s + tail;
    }
  }

  // One word of a header: it is the last one, the name goes on, or the bracket is missing.
  lemma OneWord(s: string, k: nat, p: string)
    requires k == EatName(s) && p == EatWs(s[k..])
    ensures EatWords(s) == AfterWord(s, k, p, EatWords(p))
  {
    hide EatName, EatWs;
  }

  function AfterWord(s: string, k: nat, p: string, more: Option<nat>): Option<nat>
    requires |p| <= |s|
  {
    if p != "" && p[0] == ']' then Some(k)
    else if p == "" || |p| == |s| || more.None? then None
    else Some(|s| - |p| + more.value)
  }

  // The words of a name, up to the bracket.
  lemma {:induction false} WordsRead(n: string)
    requires Plain(n) && (n != "" ==> !IsWs(n[0]) && !IsWs(n[|n| - 1]))
    ensures EatWords(n + "]") == Some(|n|)
    decreases |n|
  {
    hide IsWs, IsAlnumPunct, EatName, EatWs, EatWords;
    var s := n + "]";
    NameRun(n, "]");
    var k := EatName(s);
    assert s[k..] == n[k..] + "]";
    var m := BlankRun(n[k..], "]");
    var more := n[k + m..];
    assert n[k..][m..] == more;
    OneWord(s, k, more + "]");
    if more != "" {
      assert more[0] == n[k..][m] && more[|more| - 1] == n[|n| - 1];
      WordsRead(more);
      PlainChar(more[0]);
    }
  }

  lemma HeaderParts(n: string)
    ensures var x := HeaderText(n); x != "" && x[0] == '[' && x[1..] == n + "]" && x == ['['] + (n + "]")
  {
    assert ['['] + (n + "]") == HeaderText(n);
  }

  lemma ReadsHeader(expand: Expand, n: string)
    requires Uncommented(None, HeaderText(n)) == HeaderText(n) && (n != "" ==> !IsWs(n[0]))
    ensures ReadLine(expand, HeaderText(n)) == ReadHeader(expand, n + "]")
  {
    assert !IsWs('[') && !IsWs(']');
    hide IsWs, EatName, EatWs, Uncommented, HeaderText, ReadEntry, ReadHeader, HasPrefix;
    HeaderParts(n);
    FirstKept(HeaderText(n));
    FirstKept(n + "]");
  }

  lemma HeaderRead(expand: Expand, n: string)
    requires GoodName(n)
    ensures ReadLine(expand, HeaderText(n)) == Section(n)
  {
    hide IsWs, EatWords, Uncommented, Copy, Plain, HeaderText, ReadLine;
    HeaderUncommented(n);
    ReadsHeader(expand, n);
    WordsRead(n);
    assert (n + "]")[..|n|] == n;
    CopyPlain(expand, n);
  }

  lemma FirstKept(s: string)
    requires s != "" ==> !IsWs(s[0])
    ensures EatWs(s) == s
  {
  }

  // -------------------------------------------------------------------------
  // And no other name: what is read from a header is shorter than the header, by two characters at least.

  // What the reader passes over on its way to the bracket.
  predicate Scanned(s: string) {
    if s == "" then true
    else if s[0] == '\\' then |s| >= 2 && Scanned(s[2..])
    else (IsAlnumPunct(s[0]) || IsWs(s[0])) && Scanned(s[1..])
  }

  lemma {:induction false} ScannedAppend(a: string, b: string)
    requires Scanned(a) && Scanned(b)
    ensures Scanned(a + b)
    decreases |a|
  {
    hide IsAlnumPunct, IsWs;
    var s := a + b;
    if a == "" {
      assert s == b;
    } else if a[0] == '\\' {
      assert s[2..] == a[2..] + b;
      ScannedAppend(a[2..], b);
    } else {
      assert s[1..] == a[1..] + b;
      ScannedAppend(a[1..], b);
    }
  }

  lemma {:induction false} ScannedName(s: string)
    requires EatName(s) < |s|
    ensures Scanned(s[..EatName(s)])
    ensures EatName(s) > 0 && '\\' !in s[..EatName(s)] ==> IsAlnumPunct(s[EatName(s) - 1])
    decreases |s|
  {
    hide IsAlnumPunct, IsWs;
    var k := EatName(s);
    var t := s[..k];
    if k > 0 {
      var j := if s[0] == '\\' then 2 else 1;
      ScannedName(s[j..]);
      assert t[j..] == s[j..][..k - j] && t[0] == s[0];
      assert t == t[..j] + t[j..];
    }
  }

  lemma {:induction false} ScannedBlanks(s: string)
    ensures EatWs(s) == s[|s| - |EatWs(s)|..] && Scanned(s[..|s| - |EatWs(s)|])
    ensures EatWs(s) != "" ==> !IsWs(EatWs(s)[0])
  {
    if s != "" && IsWs(s[0]) {
      ScannedBlanks(s[1..]);
      hide IsAlnumPunct, IsWs;
      var k := |s| - |EatWs(s)|;
      assert s[..k][1..] == s[1..][..k - 1];
    }
  }

  // Copying what was scanned always works; nothing is lost exactly if there was no backslash.
  lemma {:induction false} CopyScanned(expand: Expand, s: string)
    requires Scanned(s)
    ensures var r := Copy(expand, None, s);
            r.Some? && |r.value| <= |s| && (|r.value| == |s| ==> r.value == s && Plain(s))
    decreases |s|
  {
    if s != "" {
      if s[0] == '\\' {
        CopyScanned(expand, s[2..]);
      } else {
        PlainChar(s[0]);
        CopyScanned(expand, s[1..]);
        hide IsAlnumPunct, IsWs, IsQuote;
        assert s == [s[0]] + s[1..];
      }
    }
  }

  predicate StartsWord(s: string) {
    s != "" && !IsWs(s[0]) && s[0] != ']'
  }

  // The words end at the last character before the blanks and the bracket.
  lemma {:induction false} WordsScanned(s: string)
    requires EatWords(s).Some?
    ensures var e := EatWords(s).value;
            && Scanned(s[..e]) && EatWs(s[e..]) != "" && EatWs(s[e..])[0] == ']'
            && (StartsWord(s) ==> e > 0 && ('\\' !in s[..e] ==> IsAlnumPunct(s[e - 1])))
    decreases |s|
  {
    hide IsAlnumPunct, IsWs, EatName, EatWs, Scanned, EatWords, StartsWord;
    var k := EatName(s);
    var p := EatWs(s[k..]);
    OneWord(s, k, p);
    ScannedName(s);
    ScannedBlanks(s[k..]);
    if p[0] == ']' {
      if StartsWord(s) { WordIsSome(s); }
    } else {
      WordStarts(p);
      WordsScanned(p);
      WordsJoined(s, k, p, EatWords(p).value);
    }
  }

  lemma WordsJoined(s: string, k: nat, p: string, more: nat)
    requires k <= |s| && |p| <= |s| - k && p == s[|s| - |p|..] && 0 < more <= |p|
    requires Scanned(s[..k]) && Scanned(s[k..][..|s| - k - |p|]) && Scanned(p[..more])
    ensures var e := |s| - |p| + more;
            && Scanned(s[..e]) && s[e..] == p[more..] && s[e - 1] == p[more - 1]
            && ('\\' !in s[..e] ==> '\\' !in p[..more])
  {
    hide Scanned;
    var j := |s| - |p|;
    var e := j + more;
    assert s[..j] == s[..k] + s[k..][..j - k];
    assert s[..e] == s[..j] + p[..more];
    ScannedAppend(s[..k], s[k..][..j - k]);
    ScannedAppend(s[..j], p[..more]);
  }

  lemma WordStarts(p: string)
    requires p != "" && !IsWs(p[0]) && p[0] != ']'
    ensures StartsWord(p)
  {
  }

  // A bracket does not follow directly where a word has to start.
  lemma WordIsSome(s: string)
    requires StartsWord(s) && EatWs(s[EatName(s)..]) != "" && EatWs(s[EatName(s)..])[0] == ']'
    ensures EatName(s) > 0
  {
    assert s[0..] == s;
    FirstKept(s);
  }

  // The name and its bracket fit in the text, and fill it only if they are the text.
  lemma HeaderShort(expand: Expand, start: string)
    requires ReadHeader(expand, start).Section? && (start != "" ==> !IsWs(start[0]))
    ensures var n := ReadHeader(expand, start).name;
            && |n| < |start|
            && (|n| + 1 == |start| ==> start == n + "]" && Plain(n) && (n != "" ==> !IsWs(n[0]) && !IsWs(n[|n| - 1])))
  {
    hide IsAlnumPunct, IsWs, EatWs, EatWords, Scanned, Copy, Plain, StartsWord;
    var e := EatWords(start).value;
    WordsScanned(start);
    CopyScanned(expand, start[..e]);
    var n := ReadHeader(expand, start).name;
    if |n| + 1 == |start| {
      assert n == start[..e] && start == n + [start[e]];
      LastBracket(start, e);
      if n != "" { WordAtEnds(start, n); }
    }
  }

  lemma LastBracket(s: string, e: nat)
    requires |s| == e + 1 && EatWs(s[e..]) != "" && EatWs(s[e..])[0] == ']'
    ensures s[e] == ']'
  {
  }

  lemma WordAtEnds(s: string, n: string)
    requires Plain(n) && n != "" && s == n + "]" && !IsWs(s[0])
    requires StartsWord(s) ==> '\\' !in n ==> IsAlnumPunct(s[|n| - 1])
    ensures !IsWs(n[0]) && !IsWs(n[|n| - 1])
  {
    forall i | 0 <= i < |n| ensures n[i] != '\\' { PlainChar(n[i]); }
    PlainChar(n[0]);
    PlainChar(n[|n| - 1]);
    hide IsAlnumPunct, IsWs;
    assert s[0] == n[0] && s[|n| - 1] == n[|n| - 1];
  }

  lemma {:induction false} UncommentedIsPrefix(quote: Option<char>, s: string)
    ensures Uncommented(quote, s) <= s
    decreases |s|
  {
    if s != "" {
      hide IsQuote;
      var j := if s[0] == '\\' && |s| > 1 then 2 else 1;
      assert s == s[..j] + s[j..];
      if s[0] == '\\' {
        if |s| > 1 { UncommentedIsPrefix(quote, s[2..]); }
      } else if quote.Some? {
        UncommentedIsPrefix(if s[0] == quote.value then None else quote, s[1..]);
      } else if s[0] != '#' {
        UncommentedIsPrefix(if IsQuote(s[0]) then Some(s[0]) else None, s[1..]);
      }
    }
  }

  lemma LineShort(expand: Expand, line: string)
    requires ReadLine(expand, line).Section?
    ensures var n := ReadLine(expand, line).name;
            && |n| + 2 <= |line|
            && (|n| + 2 == |line| ==>
                  line == HeaderText(n) && Plain(n) && (n != "" ==> !IsWs(n[0]) && !IsWs(n[|n| - 1])))
  {
    hide IsAlnumPunct, IsWs, EatWs, EatName, Plain, ReadHeader, ReadEntry, Uncommented, HasPrefix;
    var u := Uncommented(None, line);
    var s := EatWs(u);
    assert s != "" && s[0] == '[' by { IsHeader(expand, line); }
    UncommentedIsPrefix(None, line);
    ScannedBlanks(u);
    ScannedBlanks(s[1..]);
    HeaderShort(expand, EatWs(s[1..]));
    var n := ReadLine(expand, line).name;
    if |n| + 2 == |line| {
      assert line == u == s == ['['] + s[1..];
    }
  }

  lemma IsHeader(expand: Expand, line: string)
    requires ReadLine(expand, line).Section?
    ensures var s := EatWs(Uncommented(None, line)); s != "" && s[0] == '['
  {
  }

  // -------------------------------------------------------------------------
  // The lines that a printed header makes: a name with line ends in it makes several.

  lemma ContinuesSome(buf: string)
    requires Continues(buf)
    ensures buf != "" && buf[|buf| - 1] == '\\'
  {
  }

  lemma {:induction false} TrimEolShort(s: string)
    ensures TrimEol(s) <= s && (s != "" && s[0] != '\r' && s[0] != '\n' ==> TrimEol(s) != "")
  {
    if s != "" && (s[|s| - 1] == '\r' || s[|s| - 1] == '\n') {
      TrimEolShort(s[..|s| - 1]);
    }
  }

  // The lines from a physical line on, which completes buf.
  function AfterLine(buf: string, rest: string): seq<string> {
    if Continues(buf) then Lines(Some(buf[..|buf| - 1]), rest) else [buf] + Lines(None, rest)
  }

  function OrEmpty(pending: Option<string>): string {
    if pending.Some? then pending.value else ""
  }

  lemma LinesUnfold(pending: Option<string>, text: string, e: nat, rest: string)
    requires text != "" && e == Find(text, '\n') && rest == if e < |text| then text[e + 1..] else ""
    ensures Lines(pending, text) == AfterLine(OrEmpty(pending) + TrimEol(text[..e]), rest)
  {
    hide Find, TrimEol, Continues, AfterLine;
    var buf := OrEmpty(pending) + TrimEol(text[..e]);
    AfterLineIs(buf, rest);
  }

  lemma AfterLineIs(buf: string, rest: string)
    ensures Continues(buf) ==> |buf| > 0 && AfterLine(buf, rest) == Lines(Some(buf[..|buf| - 1]), rest)
    ensures !Continues(buf) ==> AfterLine(buf, rest) == [buf] + Lines(None, rest)
  {
    hide Lines;
  }

  lemma LinesStep(pending: Option<string>, line: string, rest: string)
    requires '\n' !in line
    ensures Lines(pending, line + "\n" + rest) == AfterLine(OrEmpty(pending) + TrimEol(line), rest)
  {
    hide *;
    FindAfter(line, '\n', rest);
    var text := line + ['\n'] + rest;
    assert line + "\n" + rest == text && text != "";
    assert text[..|line|] == line && text[|line| + 1..] == rest;
    LinesUnfold(pending, text, |line|, rest);
  }

  predicate Closed(x: string) {
    x != "" && x[|x| - 1] == ']'
  }

  lemma ClosedIsLast(p: string, x: string)
    requires Closed(x)
    ensures TrimEol(x) == x && !Continues(p + x)
  {
    assert (p + x)[|p + x| - 1] == ']';
  }

  predicate Names(line: Line, section: string) {
    line == Section(section) || (line.Assign? && line.section == Some(section))
  }

  // No line of these opens or fills the section, whatever variables stand for.
  ghost predicate Silent(lines: seq<string>, section: string) {
    forall i, expand: Expand :: 0 <= i < |lines| ==> !Names(ReadLine(expand, lines[i]), section)
  }

  lemma AssignShort(expand: Expand, line: string)
    requires var l := ReadLine(expand, line); l.Assign? && l.section.Some?
    ensures |ReadLine(expand, line).section.value| + 3 <= |line|
  {
    var u := Uncommented(None, line);
    UncommentedIsPrefix(None, line);
    ScannedBlanks(u);
    hide Uncommented, Copy, EatName, TrimWs, IsWs, IsAlnumPunct;
    var s := EatWs(u);
    var t := s[EatName(s) + 2..];
    ScannedBlanks(t[EatName(t)..]);
  }

  // A line that is not longer than the header of a bad name does not name that section.
  lemma LineSilent(expand: Expand, line: string, b: string)
    requires !GoodName(b) && |line| <= |b| + 2 && '\n' !in line
    ensures !Names(ReadLine(expand, line), b)
  {
    hide ReadLine, Plain, IsWs;
    var l := ReadLine(expand, line);
    if l == Section(b) {
      LineShort(expand, line);
      HeaderParts(b);
    } else if l.Assign? && l.section == Some(b) {
      AssignShort(expand, line);
    }
  }

  ghost predicate Short(lines: seq<string>, max: nat) {
    forall i :: 0 <= i < |lines| ==> |lines[i]| <= max && '\n' !in lines[i]
  }

  // A text that ends in a bracket ends a line, and its lines are no longer than it is.
  lemma {:induction false} HeaderSplits(pending: Option<string>, x: string, rest: string, max: nat)
    returns (lines: seq<string>)
    requires Closed(x) && |OrEmpty(pending)| + |x| <= max && '\n' !in OrEmpty(pending)
    ensures Lines(pending, x + "\n" + rest) == lines + Lines(None, rest) && Short(lines, max)
    decreases |x|
  {
    hide Lines, TrimEol, Continues, Find;
    var p := OrEmpty(pending);
    if '\n' !in x {
      LinesStep(pending, x, rest);
      ClosedIsLast(p, x);
      lines := [p + x];
    } else {
      var e := Find(x, '\n');
      var line, more := x[..e], x[e + 1..];
      assert x + "\n" + rest == line + "\n" + (more + "\n" + rest);
      LinesStep(pending, line, more + "\n" + rest);
      TrimEolShort(line);
      var buf := p + TrimEol(line);
      if Continues(buf) {
        ContinuesSome(buf);
        lines := HeaderSplits(Some(buf[..|buf| - 1]), more, rest, max);
      } else {
        var others := HeaderSplits(None, more, rest, max);
        lines := [buf] + others;
        assert [buf] + (others + Lines(None, rest)) == lines + Lines(None, rest);
      }
    }
  }

  lemma ShortSilent(lines: seq<string>, b: string)
    requires Short(lines, |b| + 2) && !GoodName(b)
    ensures Silent(lines, b)
  {
    hide ReadLine, Names, GoodName;
    forall i, expand: Expand | 0 <= i < |lines| ensures !Names(ReadLine(expand, lines[i]), b) {
      LineSilent(expand, lines[i], b);
    }
  }

  // -------------------------------------------------------------------------
  // Sections.

  ghost predicate Readable(groups: seq<Group>) {
    forall i :: 0 <= i < |groups| ==> NamesOk(groups[i].entries)
  }

  ghost predicate AllGood(groups: seq<Group>) {
    forall i :: 0 <= i < |groups| ==> GoodName(groups[i].name)
  }

  lemma BlankFirst(rest: string)
    ensures Lines(None, "\n" + rest) == [""] + Lines(None, rest)
  {
    assert "" + "\n" + rest == "\n" + rest;
    FirstOfLines("", rest);
  }

  lemma HeaderLine(n: string)
    requires GoodName(n)
    ensures var x := HeaderText(n); '\n' !in x && TrimEol(x) == x && !Continues(x)
  {
    ClosedIsLast("", HeaderText(n));
    assert "" + HeaderText(n) == HeaderText(n);
  }

  // The text of a section and what follows it, after the header.
  function Below(g: Group, tail: string): string {
    SectionText(g.entries) + tail
  }

  // A section starts with a blank line.
  lemma GroupStart(g: Group, tail: string)
    ensures GroupText(g) + tail == "\n" + (HeaderText(g.name) + "\n" + Below(g, tail))
    ensures Lines(None, GroupText(g) + tail) == [""] + Lines(None, HeaderText(g.name) + "\n" + Below(g, tail))
  {
    hide Lines, HeaderText, SectionText;
    Regroup(HeaderText(g.name), SectionText(g.entries), tail);
    BlankFirst(HeaderText(g.name) + "\n" + Below(g, tail));
  }

  lemma Regroup(x: string, section: string, tail: string)
    ensures "\n" + x + "\n" + section + tail == "\n" + (x + "\n" + (section + tail))
  {
  }

  // A section with a good name has one line for its header.
  lemma GroupSplits(g: Group, tail: string)
    requires NamesOk(g.entries) && GoodName(g.name)
    ensures Lines(None, GroupText(g) + tail) == GroupLines(g) + Lines(None, tail)
  {
    SectionLines(g.entries, tail);
    assert Below(g, tail) == SectionText(g.entries) + tail;
    hide *;
    GroupStart(g, tail);
    HeaderLine(g.name);
    FirstOfLines(HeaderText(g.name), Below(g, tail));
    Joined(g, Lines(None, tail));
  }

  lemma Joined(g: Group, more: seq<string>)
    ensures [""] + ([HeaderText(g.name)] + (LineTexts(g.entries) + more)) == GroupLines(g) + more
  {
    hide LineTexts, HeaderText;
  }

  lemma {:induction false} GroupsSplit(groups: seq<Group>)
    requires Readable(groups) && AllGood(groups)
    ensures Lines(None, GroupsText(groups)) == GroupsLines(groups)
    decreases |groups|
  {
    if groups != [] {
      hide Lines, GroupText, GoodName, NamesOk, GroupLines;
      GroupsSplit(groups[1..]);
      GroupSplits(groups[0], GroupsText(groups[1..]));
    }
  }

  // Names no longer than b, unless they are good.
  ghost predicate NoLonger(groups: seq<Group>, b: string) {
    forall i :: 0 <= i < |groups| ==> GoodName(groups[i].name) || |groups[i].name| <= |b|
  }

  lemma SilentAppend(x: seq<string>, y: seq<string>, b: string)
    requires Silent(x, b) && Silent(y, b)
    ensures Silent(x + y, b)
  {
    hide Names, ReadLine;
    forall i, expand: Expand | 0 <= i < |x + y| ensures !Names(ReadLine(expand, (x + y)[i]), b) {
      if i < |x| { assert (x + y)[i] == x[i]; } else { assert (x + y)[i] == y[i - |x|]; }
    }
  }

  lemma EntriesSilent(entries: seq<Entry>, b: string)
    requires NamesOk(entries)
    ensures Silent(LineTexts(entries), b)
  {
    hide ReadLine, LineText, NameOk, Reread;
    forall i, expand: Expand | 0 <= i < |entries| ensures !Names(ReadLine(expand, LineTexts(entries)[i]), b) {
      EntryIff(expand, entries[i]);
    }
  }

  lemma HeaderSilent(n: string, b: string)
    requires GoodName(n) && n != b
    ensures Silent([HeaderText(n)], b)
  {
    hide ReadLine, HeaderText, GoodName;
    forall i, expand: Expand | 0 <= i < 1 ensures !Names(ReadLine(expand, [HeaderText(n)][i]), b) {
      HeaderRead(expand, n);
    }
  }

  lemma GroupSilent(g: Group, tail: string, b: string)
    requires NamesOk(g.entries) && !GoodName(b) && (GoodName(g.name) || |g.name| <= |b|)
    requires Silent(Lines(None, tail), b)
    ensures Silent(Lines(None, HeaderText(g.name) + "\n" + Below(g, tail)), b)
  {
    var x, a, more := HeaderText(g.name), LineTexts(g.entries), Lines(None, tail);
    assert Closed(x) && |x| == |g.name| + 2;
    SectionLines(g.entries, tail);
    assert Lines(None, Below(g, tail)) == a + more;
    hide *;
    EntriesSilent(g.entries, b);
    SilentAppend(a, more, b);
    if GoodName(g.name) {
      HeaderLine(g.name);
      FirstOfLines(x, Below(g, tail));
      HeaderSilent(g.name, b);
      SilentAppend([x], a + more, b);
    } else {
      NothingPending();
      var lines := HeaderSplits(None, x, Below(g, tail), |b| + 2);
      ShortSilent(lines, b);
      SilentAppend(lines, a + more, b);
    }
  }

  lemma NothingPending()
    ensures OrEmpty(None) == ""
  {
  }

  // A bad name that is as long as any is lost.
  lemma {:induction false} GroupsSilent(groups: seq<Group>, b: string)
    requires Readable(groups) && !GoodName(b) && NoLonger(groups, b)
    ensures Silent(Lines(None, GroupsText(groups)), b)
    decreases |groups|
  {
    if groups == [] {
      assert Lines(None, "") == [];
    } else {
      var g, rest := groups[0], groups[1..];
      hide Lines, GroupText, GoodName, NamesOk, Silent, HeaderText, Below;
      GroupsSilent(rest, b);
      GroupSilent(g, GroupsText(rest), b);
      GroupStart(g, GroupsText(rest));
      ShortSilent([""], b);
      SilentAppend([""], Lines(None, HeaderText(g.name) + "\n" + Below(g, GroupsText(rest))), b);
    }
  }

  // -------------------------------------------------------------------------
  // The whole file.

  function BodyText(default: seq<Entry>, groups: seq<Group>): string {
    SectionText(default) + GroupsText(groups)
  }

  lemma BodySplits(default: seq<Entry>, groups: seq<Group>)
    requires NamesOk(default) && Readable(groups) && AllGood(groups)
    ensures Lines(None, BodyText(default, groups)) == LineTexts(default) + GroupsLines(groups)
  {
    hide Lines, NamesOk, Readable, AllGood;
    SectionLines(default, GroupsText(groups));
    GroupsSplit(groups);
  }

  lemma BodySilent(default: seq<Entry>, groups: seq<Group>, b: string)
    requires NamesOk(default) && Readable(groups) && !GoodName(b) && NoLonger(groups, b)
    ensures Silent(Lines(None, BodyText(default, groups)), b)
  {
    hide Lines, NamesOk, Readable, NoLonger, GoodName, LineTexts, Silent;
    SectionLines(default, GroupsText(groups));
    EntriesSilent(default, b);
    GroupsSilent(groups, b);
    SilentAppend(LineTexts(default), Lines(None, GroupsText(groups)), b);
  }

  // The first line of the file is the first entry, or the blank one before a header.
  lemma EntryComesFirst(default: seq<Entry>, groups: seq<Group>)
    requires default != []
    ensures BodyText(default, groups) == LineText(default[0]) + "\n" + BodyText(default[1..], groups)
  {
    hide LineText, SectionText, GroupsText;
    EntryFirst(default, GroupsText(groups));
  }

  lemma HeaderComesFirst(groups: seq<Group>)
    requires groups != []
    ensures BodyText([], groups)
         == "" + "\n" + (HeaderText(groups[0].name) + "\n" + Below(groups[0], GroupsText(groups[1..])))
  {
    var g, tail := groups[0], GroupsText(groups[1..]);
    assert GroupsText(groups) == GroupText(g) + tail;
    hide *;
    assert BodyText([], groups) == GroupsText(groups) by { BodyOfGroups(groups); }
    GroupStart(g, tail);
    assert "" + "\n" == "\n";
  }

  lemma BodyOfGroups(groups: seq<Group>)
    ensures BodyText([], groups) == GroupsText(groups)
  {
    hide GroupsText;
    assert "" + GroupsText(groups) == GroupsText(groups);
  }

  // The comment with the path of the original file.
  function FileText(path: Option<string>, default: seq<Entry>, groups: seq<Group>): string {
    (if path.Some? then COMMENT + path.value + "\n" else "") + BodyText(default, groups)
  }

  // A path that joins the line after it to the comment.
  predicate Swallows(path: string) {
    Continues(TrimEol(path))
  }

  // How the comment begins.
  predicate Intro(c: string) {
    Comment(c) && c[|c| - 1] == ' ' && '\n' !in c
  }

  lemma CommentIntro()
    ensures Intro(COMMENT)
  {
    var a, b := "# This configuration file was linearized ", "and expanded from ";
    assert |b| == 18 && b[17] == ' ' && '\n' !in b;
    assert a[0] == '#' && '\n' !in a;
  }

  predicate Comment(s: string) {
    s != "" && s[0] == '#'
  }

  lemma CommentBlank(expand: Expand, s: string)
    requires Comment(s)
    ensures ReadLine(expand, s) == Blank
  {
    assert Uncommented(None, s) == "";
  }

  lemma {:induction false} TrimEolAfter(a: string, b: string)
    requires a != "" && a[|a| - 1] == ' '
    ensures TrimEol(a + b) == a + TrimEol(b)
  {
    if b == "" {
      assert a + b == a;
    } else {
      assert (a + b)[..|a + b| - 1] == a + b[..|b| - 1];
      TrimEolAfter(a, b[..|b| - 1]);
    }
  }

  lemma CommentTrimmed(c: string, path: string)
    requires Intro(c)
    ensures var t := TrimEol(c + path);
            Comment(t) && (Continues(t) <==> Swallows(path)) && (Continues(t) ==> |t| > 1 && t[|t| - 2] != '\\')
  {
    TrimEolAfter(c, path);
    hide TrimEol;
    var u := TrimEol(path);
    var t := c + u;
    assert u == "" ==> t == c;
    assert u != "" ==> t[|t| - 1] == u[|u| - 1] && t[|t| - 2] == if |u| == 1 then ' ' else u[|u| - 2];
  }

  // The comment on a line of its own, and where nothing follows it.
  lemma CommentSplits(c: string, path: string, rest: string) returns (line: string)
    requires Intro(c) && '\n' !in path
    ensures Comment(line)
    ensures !Swallows(path) ==> Lines(None, c + path + "\n" + rest) == [line] + Lines(None, rest)
    ensures Swallows(path) && rest == "" ==> Lines(None, c + path + "\n" + rest) == [line]
  {
    var t := TrimEol(c + path);
    CommentTrimmed(c, path);
    assert Swallows(path) ==> Lines(Some(t[..|t| - 1]), "") == [t[..|t| - 1]];
    hide TrimEol, Continues, Lines;
    LinesStep(None, c + path, rest);
    assert OrEmpty(None) + t == t;
    line := if Swallows(path) then t[..|t| - 1] else t;
  }

  // The comment with the line that it swallows.
  lemma LineSwallowed(c: string, path: string, line: string, rest: string) returns (joined: string)
    requires Intro(c) && '\n' !in path && Swallows(path)
    requires '\n' !in line && TrimEol(line) == line && !Continues(line)
    ensures Comment(joined) && Lines(None, c + path + "\n" + (line + "\n" + rest)) == [joined] + Lines(None, rest)
  {
    var t := TrimEol(c + path);
    CommentTrimmed(c, path);
    var q := t[..|t| - 1];
    NoMoreSwallowed(q, line);
    joined := q + line;
    assert Comment(joined) && OrEmpty(None) + t == t && OrEmpty(Some(q)) + line == joined;
    hide TrimEol, Continues, Lines, Intro, Comment, OrEmpty;
    LinesStep(None, c + path, line + "\n" + rest);
    LinesStep(Some(q), line, rest);
  }

  lemma NoMoreSwallowed(q: string, line: string)
    requires q != "" && q[|q| - 1] != '\\' && !Continues(line)
    ensures !Continues(q + line)
  {
    var s := q + line;
    assert line != "" ==> s[|s| - 1] == line[|line| - 1] && (|line| > 1 ==> s[|s| - 2] == line[|line| - 2]);
    assert line == "" ==> s == q;
  }

  /**
   * What becomes of the comment: it is a line of its own; but if the path ends in a backslash, the line after it joins
   * it and is lost.  Where there is no entry to lose, that is the blank line before a header.
   */
  lemma FileSplits(path: string, default: seq<Entry>, groups: seq<Group>) returns (line: string)
    requires '\n' !in path && NamesOk(default)
    ensures Comment(line)
    ensures var lines := Lines(None, FileText(Some(path), default, groups));
            var body := Lines(None, BodyText(default, groups));
            if !Swallows(path) then lines == [line] + body
            else if default != [] then lines == [line] + Lines(None, BodyText(default[1..], groups))
            else if groups != [] then body != [] && body[0] == "" && lines == [line] + body[1..]
            else lines == [line]
  {
    hide Lines, BodyText, Swallows, NameOk, Intro, Comment;
    var body := BodyText(default, groups);
    assert FileText(Some(path), default, groups) == COMMENT + path + "\n" + body;
    assert default == [] && groups == [] ==> body == "" by { if default == [] && groups == [] { BodyOfGroups([]); } }
    CommentIntro();
    line := CommentSplits(COMMENT, path, body);
    if Swallows(path) {
      if default != [] {
        assert NameOk(default[0].name);
        line := EntrySwallowed(COMMENT, path, default, groups);
      } else if groups != [] {
        line := BlankSwallowed(COMMENT, path, groups);
      }
    }
  }

  lemma EntrySwallowed(c: string, path: string, default: seq<Entry>, groups: seq<Group>) returns (line: string)
    requires Intro(c) && '\n' !in path && Swallows(path) && default != [] && NameOk(default[0].name)
    ensures Comment(line)
    ensures Lines(None, c + path + "\n" + BodyText(default, groups))
         == [line] + Lines(None, BodyText(default[1..], groups))
  {
    NameOkWhole(default[0].name);
    LineIsWhole(default[0]);
    EntryComesFirst(default, groups);
    hide *;
    line := LineSwallowed(c, path, LineText(default[0]), BodyText(default[1..], groups));
  }

  lemma BlankSwallowed(c: string, path: string, groups: seq<Group>) returns (line: string)
    requires Intro(c) && '\n' !in path && Swallows(path) && groups != []
    ensures Comment(line)
    ensures var body := Lines(None, BodyText([], groups));
            && body != [] && body[0] == ""
            && Lines(None, c + path + "\n" + BodyText([], groups)) == [line] + body[1..]
  {
    assert TrimEol("") == "" && !Continues("");
    HeaderComesFirst(groups);
    hide *;
    var rest := HeaderText(groups[0].name) + "\n" + Below(groups[0], GroupsText(groups[1..]));
    line := LineSwallowed(c, path, "", rest);
    FirstOfLines("", rest);
    assert ([""] + Lines(None, rest))[1..] == Lines(None, rest);
  }
}
