/**
 * A configuration, as the reader builds it from the lines of a file, against the file that the configutl command prints
 * of it: when does loading that file give the configuration again?
 */
module ConfReload {
  import opened Prelude
  import opened ConfEscape
  import opened ConfFile

  // The entries of every section, in the order of the stack.
  type Conf = map<string, seq<Entry>>

  datatype State = State(current: string, conf: Conf)

  const DEFAULT := "default"
  const START := State(DEFAULT, map[DEFAULT := []])

  predicate Lacks(entries: seq<Entry>, name: string) {
    forall i :: 0 <= i < |entries| ==> entries[i].name != name
  }

  function Without(entries: seq<Entry>, name: string): (r: seq<Entry>)
    ensures Lacks(entries, name) ==> r == entries
    ensures Lacks(r, name) && forall n :: Lacks(entries, n) ==> Lacks(r, n)
  {
    if entries == [] then []
    else
      assert entries == [entries[0]] + entries[1..];
      assert forall n :: Lacks(entries, n) ==> Lacks(entries[1..], n);
      if entries[0].name == name then Without(entries[1..], name) else [entries[0]] + Without(entries[1..], name)
  }

  // _CONF_add_string(): a value given again replaces the old one and moves to the end.
  function Added(entries: seq<Entry>, e: Entry): seq<Entry> {
    Without(entries, e.name) + [e]
  }

  function Opened(conf: Conf, section: string): (r: Conf)
    ensures section in r
  {
    if section in conf then conf else conf[section := []]
  }

  // One line; None if the load fails, or for a directive.
  function Take(st: State, line: Line): Option<State> {
    match line
    case Blank => Some(st)
    case Section(name) => Some(State(name, Opened(st.conf, name)))
    case Assign(section, e) =>
      var s := if section.Some? then section.value else st.current;
      var conf := Opened(st.conf, s);
      Some(st.(conf := conf[s := Added(conf[s], e)]))
    case _ => None
  }

  // What variables stand for can depend on the configuration so far and on the line.
  type Expander = (State, string) -> Expand

  function TakeLine(x: Expander, st: State, line: string): Option<State> {
    Take(st, ReadLine(x(st, line), line))
  }

  function Built(x: Expander, st: Option<State>, lines: seq<string>): Option<State>
    decreases |lines|
  {
    if lines == [] || st.None? then st else Built(x, TakeLine(x, st.value, lines[0]), lines[1..])
  }

  // def_load_bio(), from an empty configuration.
  function Reload(x: Expander, text: string): Option<Conf> {
    var st := Built(x, Some(START), Lines(None, text));
    if st.None? then None else Some(st.value.conf)
  }

  lemma {:induction false} BuiltAppend(x: Expander, st: Option<State>, a: seq<string>, b: seq<string>)
    ensures Built(x, st, a + b) == Built(x, Built(x, st, a), b)
    decreases |a|
  {
    hide TakeLine;
    if a == [] {
      assert a + b == b;
    } else if st.Some? {
      assert (a + b)[1..] == a[1..] + b;
      BuiltAppend(x, TakeLine(x, st.value, a[0]), a[1..], b);
    }
  }

  // -------------------------------------------------------------------------
  // Configurations as they are loaded.

  ghost predicate Distinct(entries: seq<Entry>) {
    forall i, j :: 0 <= i < j < |entries| ==> entries[i].name != entries[j].name
  }

  ghost predicate EntriesOk(entries: seq<Entry>) {
    NamesOk(entries) && Distinct(entries)
  }

  ghost predicate ConfOk(conf: Conf) {
    DEFAULT in conf && forall s :: s in conf ==> EntriesOk(conf[s])
  }

  ghost predicate LineOk(line: Line) {
    line.Assign? ==> NameOk(line.entry.name)
  }

  lemma {:induction false} WithoutOk(entries: seq<Entry>, name: string)
    requires EntriesOk(entries)
    ensures EntriesOk(Without(entries, name))
  {
    hide NameOk;
    if entries != [] {
      WithoutOk(entries[1..], name);
      assert Lacks(entries[1..], entries[0].name);
    }
  }

  lemma AddedOk(entries: seq<Entry>, e: Entry)
    requires EntriesOk(entries) && NameOk(e.name)
    ensures EntriesOk(Added(entries, e))
  {
    WithoutOk(entries, e.name);
    hide NameOk, Without;
  }

  lemma TakeOk(st: State, line: Line)
    requires ConfOk(st.conf) && LineOk(line) && Take(st, line).Some?
    ensures ConfOk(Take(st, line).value.conf)
  {
    hide EntriesOk, NameOk, Added;
    assert EntriesOk([]) by { NothingOk(); }
    if line.Assign? {
      var s := if line.section.Some? then line.section.value else st.current;
      AddedOk(Opened(st.conf, s)[s], line.entry);
    }
  }

  lemma NothingOk()
    ensures EntriesOk([])
  {
  }

  lemma {:induction false} BuiltOk(x: Expander, st: Option<State>, lines: seq<string>)
    requires st.Some? ==> ConfOk(st.value.conf)
    requires Whole(lines)
    ensures Built(x, st, lines).Some? ==> ConfOk(Built(x, st, lines).value.conf)
    decreases |lines|
  {
    hide ConfOk, LineOk, Take, ReadLine;
    if lines != [] && st.Some? {
      ReadLineOk(x(st.value, lines[0]), lines[0]);
      if TakeLine(x, st.value, lines[0]).Some? { TakeOk(st.value, ReadLine(x(st.value, lines[0]), lines[0])); }
      BuiltOk(x, TakeLine(x, st.value, lines[0]), lines[1..]);
    }
  }

  lemma {:induction false} EatNameNamed(s: string)
    requires EatName(s) < |s|
    ensures Named(s[..EatName(s)])
    decreases |s|
  {
    hide IsAlnumPunct;
    var k := EatName(s);
    if k > 0 {
      var j := if s[0] == '\\' then 2 else 1;
      EatNameNamed(s[j..]);
      assert s[..k][j..] == s[j..][..k - j];
    }
  }

  // A name that is read is one that the reader finds again.
  lemma EntryOk(expand: Expand, section: Option<string>, s: string)
    requires ReadEntry(expand, section, s).Assign? && '\n' !in s
    ensures NameOk(ReadEntry(expand, section, s).entry.name)
  {
    hide Copy, TrimWs, Named, EatName, EatWs, HasPrefix;
    var k := EatName(s);
    LongEnough(EatWs(s[k..]), "=");
    EatNameNamed(s);
    NoneHere(s, k, ".pragma");
    NoneHere(s, k, ".include");
  }

  lemma NoneHere(s: string, k: nat, word: string)
    requires k <= |s| && !HasPrefix(s, word)
    ensures !HasPrefix(s[..k], word)
  {
    assert |word| <= k ==> s[..k][..|word|] == s[..|word|];
  }

  lemma EatWsWhole(s: string)
    requires '\n' !in s
    ensures '\n' !in EatWs(s)
  {
    ScannedBlanks(s);
  }

  lemma ReadLineOk(expand: Expand, line: string)
    requires '\n' !in line
    ensures LineOk(ReadLine(expand, line))
  {
    var u := Uncommented(None, line);
    UncommentedIsPrefix(None, line);
    assert '\n' !in u by { assert u == line[..|u|]; }
    EatWsWhole(u);
    hide Uncommented, EatWs, EatName, ReadEntry, NameOk, HasPrefix;
    var s := EatWs(u);
    var k := EatName(s);
    if s != "" && s[0] != '[' {
      if HasPrefix(s[k..], "::") {
        LongEnough(s[k..], "::");
        if ReadEntry(expand, Some(s[..k]), s[k + 2..]).Assign? { EntryOk(expand, Some(s[..k]), s[k + 2..]); }
      } else {
        if ReadEntry(expand, None, s).Assign? { EntryOk(expand, None, s); }
      }
    }
  }

  lemma LongEnough(s: string, word: string)
    requires HasPrefix(s, word)
    ensures |s| >= |word|
  {
  }

  ghost predicate Whole(lines: seq<string>) {
    forall i :: 0 <= i < |lines| ==> '\n' !in lines[i]
  }

  // No line has a newline in it.
  lemma {:induction false} LinesWhole(pending: Option<string>, text: string)
    requires '\n' !in OrEmpty(pending)
    ensures Whole(Lines(pending, text))
    decreases |text|
  {
    if text != "" {
      hide TrimEol, Continues, Find, Lines, Whole;
      var e := Find(text, '\n');
      var rest := if e < |text| then text[e + 1..] else "";
      var buf := OrEmpty(pending) + TrimEol(text[..e]);
      LinesUnfold(pending, text, e, rest);
      TrimEolShort(text[..e]);
      assert '\n' !in buf;
      if Continues(buf) {
        ContinuesSome(buf);
        LinesWhole(Some(buf[..|buf| - 1]), rest);
      } else {
        LinesWhole(None, rest);
        WholeMore(buf, Lines(None, rest));
      }
    }
  }

  lemma WholeMore(line: string, lines: seq<string>)
    requires '\n' !in line && Whole(lines)
    ensures Whole([line] + lines)
  {
  }

  /** Whatever is loaded, the names of the entries can be read again, and those in one section differ. */
  lemma LoadedOk(x: Expander, text: string)
    requires Reload(x, text).Some?
    ensures ConfOk(Reload(x, text).value)
  {
    hide Lines, Built, ConfOk;
    LinesWhole(None, text);
    assert ConfOk(START.conf) by { StartOk(); }
    BuiltOk(x, Some(START), Lines(None, text));
  }

  lemma StartOk()
    ensures ConfOk(START.conf)
  {
  }

  // -------------------------------------------------------------------------
  // Building what the lines of a printed file say.

  // What entries are read as: the same names in the same order, and the same value exactly if it has no back quote.
  ghost predicate Rereads(entries: seq<Entry>, again: seq<Entry>) {
    && |again| == |entries|
    && forall i :: 0 <= i < |entries| ==>
         again[i].name == entries[i].name && (again[i] == entries[i] <==> '`' !in entries[i].value)
  }

  lemma RereadsDistinct(before: seq<Entry>, e: Entry, e': Entry, rest: seq<Entry>)
    requires Distinct(before + ([e] + rest)) && e'.name == e.name
    ensures Lacks(before, e.name) && Distinct(before + [e'] + rest)
  {
    var all, all' := before + ([e] + rest), before + [e'] + rest;
    assert forall i :: 0 <= i < |all| ==> all'[i].name == all[i].name;
    assert forall i :: 0 <= i < |before| ==> all[i] == before[i] && all[|before|] == e;
  }

  // The current section with other entries.
  function Filled(st: State, entries: seq<Entry>): State {
    st.(conf := st.conf[st.current := entries])
  }

  lemma FilledAgain(st: State, a: seq<Entry>, b: seq<Entry>)
    ensures Filled(Filled(st, a), b) == Filled(st, b)
    ensures st.current in st.conf && st.conf[st.current] == a ==> Filled(st, a) == st
  {
    assert st.conf[st.current := a][st.current := b] == st.conf[st.current := b];
    if st.current in st.conf && st.conf[st.current] == a { assert st.conf[st.current := a] == st.conf; }
  }

  lemma TakeEntry(x: Expander, st: State, e: Entry) returns (e': Entry)
    requires st.current in st.conf && NameOk(e.name) && Lacks(st.conf[st.current], e.name)
    ensures e'.name == e.name && (e' == e <==> '`' !in e.value)
    ensures TakeLine(x, st, LineText(e)) == Some(Filled(st, st.conf[st.current] + [e']))
  {
    hide ReadLine, LineText, NameOk, Copy, Escaped, Lacks;
    var expand := x(st, LineText(e));
    EntryIff(expand, e);
    RereadIff(expand, e);
    e' := Reread(expand, e);
  }

  lemma RereadsMore(e: Entry, e': Entry, rest: seq<Entry>, more: seq<Entry>)
    requires e'.name == e.name && (e' == e <==> '`' !in e.value) && Rereads(rest, more)
    ensures Rereads([e] + rest, [e'] + more)
  {
  }

  lemma BuiltFirst(x: Expander, st: State, e: Entry, rest: seq<Entry>)
    ensures Built(x, Some(st), LineTexts([e] + rest)) == Built(x, TakeLine(x, st, LineText(e)), LineTexts(rest))
  {
    assert ([e] + rest)[1..] == rest;
    hide LineText, TakeLine;
    assert LineTexts([e] + rest) == [LineText(e)] + LineTexts(rest);
    assert ([LineText(e)] + LineTexts(rest))[1..] == LineTexts(rest);
  }

  lemma EntriesStep(x: Expander, st: State, e: Entry, rest: seq<Entry>) returns (e': Entry)
    requires st.current in st.conf && NameOk(e.name) && Distinct(st.conf[st.current] + ([e] + rest))
    ensures e'.name == e.name && (e' == e <==> '`' !in e.value)
    ensures var next := Filled(st, st.conf[st.current] + [e']);
            && Distinct(next.conf[next.current] + rest)
            && Built(x, Some(st), LineTexts([e] + rest)) == Built(x, Some(next), LineTexts(rest))
  {
    var before := st.conf[st.current];
    hide *;
    RereadsDistinct(before, e, e, rest);
    e' := TakeEntry(x, st, e);
    RereadsDistinct(before, e, e', rest);
    FilledHas(st, before + [e']);
    BuiltFirst(x, st, e, rest);
  }

  lemma EntriesJoined(st: State, e': Entry, more: seq<Entry>)
    requires st.current in st.conf
    ensures var before := st.conf[st.current];
            var next := Filled(st, before + [e']);
            Filled(next, next.conf[next.current] + more) == Filled(st, before + ([e'] + more))
  {
    var before := st.conf[st.current];
    FilledHas(st, before + [e']);
    assert before + [e'] + more == before + ([e'] + more);
    FilledAgain(st, before + [e'], before + ([e'] + more));
  }

  lemma {:induction false} BuiltEntries(x: Expander, st: State, entries: seq<Entry>) returns (again: seq<Entry>)
    requires NamesOk(entries) && st.current in st.conf && Distinct(st.conf[st.current] + entries)
    ensures Rereads(entries, again)
    ensures Built(x, Some(st), LineTexts(entries)) == Some(Filled(st, st.conf[st.current] + again))
    decreases |entries|
  {
    if entries == [] {
      again := [];
      assert st.conf[st.current] + [] == st.conf[st.current];
      FilledAgain(st, st.conf[st.current], []);
    } else {
      var e, rest := entries[0], entries[1..];
      assert entries == [e] + rest && NamesOk(rest) && NameOk(e.name);
      hide *;
      var e' := EntriesStep(x, st, e, rest);
      FilledHas(st, st.conf[st.current] + [e']);
      var more := BuiltEntries(x, Filled(st, st.conf[st.current] + [e']), rest);
      again := [e'] + more;
      RereadsMore(e, e', rest, more);
      EntriesJoined(st, e', more);
    }
  }

  lemma FilledHas(st: State, entries: seq<Entry>)
    ensures var next := Filled(st, entries);
            next.current == st.current && st.current in next.conf && next.conf[st.current] == entries
  {
  }

  function GroupsConf(groups: seq<Group>): Conf {
    if groups == [] then map[] else map[groups[0].name := groups[0].entries] + GroupsConf(groups[1..])
  }

  function ConfOf(default: seq<Entry>, groups: seq<Group>): Conf {
    map[DEFAULT := default] + GroupsConf(groups)
  }

  // The sections of a file have different names.
  ghost predicate Apart(groups: seq<Group>) {
    forall i, j :: 0 <= i < j < |groups| ==> groups[i].name != groups[j].name
  }

  ghost predicate NoneIn(groups: seq<Group>, conf: Conf) {
    forall i :: 0 <= i < |groups| ==> groups[i].name !in conf
  }

  lemma TakeHeader(x: Expander, st: State, n: string)
    requires GoodName(n) && n !in st.conf
    ensures Built(x, Some(st), ["", HeaderText(n)]) == Some(State(n, st.conf[n := []]))
  {
    var head := ["", HeaderText(n)];
    assert head[1..] == [HeaderText(n)] && [HeaderText(n)][1..] == [];
    BlankRead(x(st, ""), "");
    HeaderRead(x(st, HeaderText(n)), n);
    hide ReadLine, HeaderText, GoodName;
    assert Built(x, Some(st), [HeaderText(n)]) == Built(x, Some(State(n, st.conf[n := []])), []);
    assert Built(x, Some(st), head) == Built(x, Some(st), [HeaderText(n)]);
  }

  lemma BlankRead(expand: Expand, line: string)
    requires line == "" || Comment(line)
    ensures ReadLine(expand, line) == Blank
  {
    if line != "" { CommentBlank(expand, line); } else { NothingUncommented(); }
  }

  lemma BuiltGroup(x: Expander, st: State, g: Group) returns (again: seq<Entry>)
    requires g.name !in st.conf && GoodName(g.name) && EntriesOk(g.entries)
    ensures Rereads(g.entries, again)
    ensures Built(x, Some(st), GroupLines(g)) == Some(State(g.name, st.conf[g.name := again]))
  {
    var empty := State(g.name, st.conf[g.name := []]);
    assert [] + g.entries == g.entries && empty.conf[g.name] == [] && g.name in empty.conf;
    assert GroupLines(g) == ["", HeaderText(g.name)] + LineTexts(g.entries);
    hide Built, GroupLines, LineTexts, Distinct, NamesOk, GoodName, HeaderText, Rereads;
    TakeHeader(x, st, g.name);
    BuiltAppend(x, Some(st), ["", HeaderText(g.name)], LineTexts(g.entries));
    again := BuiltEntries(x, empty, g.entries);
    EmptyFilled(st, g.name, again);
  }

  lemma EmptyFilled(st: State, n: string, again: seq<Entry>)
    ensures Filled(State(n, st.conf[n := []]), [] + again) == State(n, st.conf[n := again])
  {
    assert [] + again == again;
    assert st.conf[n := []][n := again] == st.conf[n := again];
  }

  // The same sections, with entries as they are read.
  ghost predicate GroupsReread(groups: seq<Group>, again: seq<Group>) {
    && |again| == |groups|
    && forall i :: 0 <= i < |groups| ==>
         again[i].name == groups[i].name && Rereads(groups[i].entries, again[i].entries)
  }

  ghost predicate AllOk(groups: seq<Group>) {
    forall i :: 0 <= i < |groups| ==> EntriesOk(groups[i].entries) && GoodName(groups[i].name)
  }

  lemma {:induction false} BuiltGroups(x: Expander, st: State, groups: seq<Group>) returns (again: seq<Group>)
    requires Apart(groups) && AllOk(groups) && NoneIn(groups, st.conf)
    ensures GroupsReread(groups, again)
    ensures var end := Built(x, Some(st), GroupsLines(groups));
            end.Some? && end.value.conf == st.conf + GroupsConf(again)
    decreases |groups|
  {
    if groups == [] {
      again := [];
      assert st.conf + map[] == st.conf;
    } else {
      var g, rest := groups[0], groups[1..];
      assert EntriesOk(g.entries) && GoodName(g.name) && g.name !in st.conf;
      hide Built, GroupLines, EntriesOk, GoodName, Rereads;
      var entries := BuiltGroup(x, st, g);
      var next := State(g.name, st.conf[g.name := entries]);
      GroupsRest(groups, st.conf, entries);
      hide Apart, AllOk, NoneIn;
      BuiltAppend(x, Some(st), GroupLines(g), GroupsLines(rest));
      var more := BuiltGroups(x, next, rest);
      var g' := Group(g.name, entries);
      again := [g'] + more;
      assert again[1..] == more;
      Reordered(st.conf, g', GroupsConf(more));
    }
  }

  lemma GroupsRest(groups: seq<Group>, conf: Conf, entries: seq<Entry>)
    requires groups != [] && Apart(groups) && AllOk(groups) && NoneIn(groups, conf)
    ensures var rest := groups[1..]; Apart(rest) && AllOk(rest) && NoneIn(rest, conf[groups[0].name := entries])
  {
    hide EntriesOk, GoodName;
  }

  lemma Reordered(conf: Conf, g: Group, more: Conf)
    ensures conf[g.name := g.entries] + more == conf + (map[g.name := g.entries] + more)
  {
  }

  lemma BuiltBody(x: Expander, default: seq<Entry>, groups: seq<Group>)
    returns (default': seq<Entry>, groups': seq<Group>)
    requires EntriesOk(default) && Apart(groups) && AllOk(groups) && NoneIn(groups, START.conf)
    ensures Rereads(default, default') && GroupsReread(groups, groups')
    ensures var end := Built(x, Some(START), LineTexts(default) + GroupsLines(groups));
            end.Some? && end.value.conf == ConfOf(default', groups')
  {
    assert [] + default == default;
    hide Built, LineTexts, GroupsLines, Distinct, NamesOk, Apart, AllOk, Rereads, GroupsReread;
    BuiltAppend(x, Some(START), LineTexts(default), GroupsLines(groups));
    default' := BuiltEntries(x, START, default);
    EmptyFilled(State("", map[]), DEFAULT, default');
    groups' := BuiltGroups(x, State(DEFAULT, map[DEFAULT := default']), groups);
  }

  // A section that no line names is not there.
  lemma {:induction false} BuiltSilent(x: Expander, st: Option<State>, lines: seq<string>, b: string)
    requires st.Some? ==> b !in st.value.conf && st.value.current != b
    requires Silent(lines, b)
    ensures Built(x, st, lines).Some? ==> b !in Built(x, st, lines).value.conf
    decreases |lines|
  {
    if lines != [] && st.Some? {
      var expand := x(st.value, lines[0]);
      assert !Names(ReadLine(expand, lines[0]), b);
      hide Names, ReadLine;
      assert Silent(lines[1..], b);
      TakeSilent(st.value, ReadLine(expand, lines[0]), b);
      hide Take, Silent;
      BuiltSilent(x, TakeLine(x, st.value, lines[0]), lines[1..], b);
    }
  }

  lemma TakeSilent(st: State, line: Line, b: string)
    requires b !in st.conf && st.current != b && !Names(line, b)
    ensures var next := Take(st, line); next.Some? ==> b !in next.value.conf && next.value.current != b
  {
    hide Added;
  }

  // -------------------------------------------------------------------------
  // The configuration that is loaded from a printed file.

  lemma {:induction false} GroupsConfHas(groups: seq<Group>, i: nat)
    requires Apart(groups) && i < |groups|
    ensures groups[i].name in GroupsConf(groups) && GroupsConf(groups)[groups[i].name] == groups[i].entries
    decreases |groups|
  {
    if i > 0 {
      GroupsConfHas(groups[1..], i - 1);
    } else {
      GroupsConfOnly(groups[1..], groups[0].name);
    }
  }

  lemma {:induction false} GroupsConfOnly(groups: seq<Group>, name: string)
    requires forall i :: 0 <= i < |groups| ==> groups[i].name != name
    ensures name !in GroupsConf(groups)
    decreases |groups|
  {
    if groups != [] { GroupsConfOnly(groups[1..], name); }
  }

  // Sections of a loaded configuration, other than the default one.
  ghost predicate Sound(default: seq<Entry>, groups: seq<Group>) {
    && EntriesOk(default) && Apart(groups) && NoneIn(groups, START.conf)
    && forall i :: 0 <= i < |groups| ==> EntriesOk(groups[i].entries)
  }

  ghost predicate NoBackQuotes(default: seq<Entry>, groups: seq<Group>) {
    NoBackQuote(default) && forall i :: 0 <= i < |groups| ==> NoBackQuote(groups[i].entries)
  }

  // With good names everything is there, but for back quotes.
  lemma BodyReloaded(x: Expander, default: seq<Entry>, groups: seq<Group>)
    returns (default': seq<Entry>, groups': seq<Group>)
    requires Sound(default, groups) && AllGood(groups)
    ensures Rereads(default, default') && GroupsReread(groups, groups')
    ensures Reload(x, BodyText(default, groups)) == Some(ConfOf(default', groups'))
  {
    hide Lines, Built, BodyText, NamesOk, Distinct, GoodName, GroupsLines, ConfOf, Rereads, GroupsReread;
    assert AllOk(groups) && Readable(groups);
    BodySplits(default, groups);
    default', groups' := BuiltBody(x, default, groups);
  }

  // The longest of the bad names.
  lemma {:induction false} LongestBad(groups: seq<Group>) returns (k: nat)
    requires !AllGood(groups)
    ensures k < |groups| && !GoodName(groups[k].name) && NoLonger(groups, groups[k].name)
    decreases |groups|
  {
    hide GoodName;
    var rest := groups[..|groups| - 1];
    var last := groups[|groups| - 1].name;
    if AllGood(rest) {
      k := |groups| - 1;
    } else {
      k := LongestBad(rest);
      if !GoodName(last) && |last| > |groups[k].name| { k := |groups| - 1; }
      assert forall i :: 0 <= i < |groups| ==> groups[i] == if i < |rest| then rest[i] else groups[|groups| - 1];
    }
  }

  // With a bad name a section is missed, if the file can be loaded at all.
  lemma BodyMisses(x: Expander, default: seq<Entry>, groups: seq<Group>, conf: Conf)
    requires NamesOk(default) && Readable(groups) && NoneIn(groups, START.conf) && !AllGood(groups)
    requires forall i :: 0 <= i < |groups| ==> groups[i].name in conf
    ensures Reload(x, BodyText(default, groups)) != Some(conf)
  {
    var k := LongestBad(groups);
    var b := groups[k].name;
    assert b !in START.conf && START.current != b by { assert groups[k].name !in START.conf; }
    hide Lines, Built, BodyText, NamesOk, Readable, AllGood, NoLonger, GoodName, Silent;
    BodySilent(default, groups, b);
    BuiltSilent(x, Some(START), Lines(None, BodyText(default, groups)), b);
  }

  lemma ConfEqual(default: seq<Entry>, groups: seq<Group>, default': seq<Entry>, groups': seq<Group>)
    requires |groups'| == |groups| && forall i :: 0 <= i < |groups| ==> groups'[i].name == groups[i].name
    requires Apart(groups) && NoneIn(groups, START.conf)
    ensures ConfOf(default', groups') == ConfOf(default, groups) <==> default' == default && groups' == groups
  {
    GroupsConfOnly(groups, DEFAULT);
    GroupsConfOnly(groups', DEFAULT);
    if ConfOf(default', groups') == ConfOf(default, groups) {
      assert ConfOf(default', groups')[DEFAULT] == default' && ConfOf(default, groups)[DEFAULT] == default;
      forall i | 0 <= i < |groups| ensures groups'[i] == groups[i] {
        GroupsConfHas(groups, i);
        GroupsConfHas(groups', i);
      }
    }
  }

  lemma RereadsIff(entries: seq<Entry>, again: seq<Entry>)
    requires Rereads(entries, again)
    ensures again == entries <==> NoBackQuote(entries)
  {
  }

  lemma RereadIsSame(default: seq<Entry>, groups: seq<Group>, default': seq<Entry>, groups': seq<Group>)
    requires Apart(groups) && NoneIn(groups, START.conf) && Rereads(default, default') && GroupsReread(groups, groups')
    ensures ConfOf(default', groups') == ConfOf(default, groups) <==> NoBackQuotes(default, groups)
  {
    hide ConfOf, NoBackQuote, Apart, NoneIn, Rereads;
    ConfEqual(default, groups, default', groups');
    RereadsIff(default, default');
    forall i | 0 <= i < |groups| ensures groups'[i] == groups[i] <==> NoBackQuote(groups[i].entries) {
      RereadsIff(groups[i].entries, groups'[i].entries);
    }
  }

  lemma SoundParts(default: seq<Entry>, groups: seq<Group>)
    requires Sound(default, groups)
    ensures NamesOk(default) && Readable(groups) && Apart(groups) && NoneIn(groups, START.conf)
    ensures default != [] ==> Sound(default[1..], groups)
  {
    hide NameOk;
  }

  lemma {:induction false} AllIn(default: seq<Entry>, groups: seq<Group>)
    requires Apart(groups)
    ensures forall i :: 0 <= i < |groups| ==> groups[i].name in ConfOf(default, groups)
  {
    forall i | 0 <= i < |groups| ensures groups[i].name in ConfOf(default, groups) { GroupsConfHas(groups, i); }
  }

  // The sections without the comment.
  lemma BodyReloadsIff(x: Expander, default: seq<Entry>, groups: seq<Group>)
    requires Sound(default, groups)
    ensures Reload(x, BodyText(default, groups)) == Some(ConfOf(default, groups)) <==>
            AllGood(groups) && NoBackQuotes(default, groups)
  {
    SoundParts(default, groups);
    hide *;
    if AllGood(groups) {
      var default', groups' := BodyReloaded(x, default, groups);
      RereadIsSame(default, groups, default', groups');
    } else {
      AllIn(default, groups);
      BodyMisses(x, default, groups, ConfOf(default, groups));
    }
  }

  // A blank line or a comment changes nothing.
  lemma BlankIsNothing(x: Expander, line: string, lines: seq<string>)
    requires line == "" || Comment(line)
    ensures Built(x, Some(START), [line] + lines) == Built(x, Some(START), lines)
  {
    assert ([line] + lines)[1..] == lines;
    BlankRead(x(START, line), line);
    hide ReadLine;
  }

  // If the first entry is swallowed, the default section is too short, or a section is missing.
  lemma EntryMissed(x: Expander, default: seq<Entry>, groups: seq<Group>)
    requires Sound(default, groups) && default != []
    ensures Reload(x, BodyText(default[1..], groups)) != Some(ConfOf(default, groups))
  {
    SoundParts(default, groups);
    var rest := default[1..];
    hide Reload, BodyText, Sound, NamesOk, Readable, ConfOf, NoBackQuote;
    if AllGood(groups) {
      var rest', groups' := BodyReloaded(x, rest, groups);
      assert |rest'| < |default|;
      ConfEqual(default, groups, rest', groups');
    } else {
      assert NamesOk(rest) by { SoundParts(rest, groups); }
      AllIn(default, groups);
      BodyMisses(x, rest, groups, ConfOf(default, groups));
    }
  }

  // What loading the file gives, in terms of the file without its comment.
  lemma FileReloads(x: Expander, path: Option<string>, default: seq<Entry>, groups: seq<Group>)
    requires NamesOk(default) && (path.Some? ==> '\n' !in path.value)
    ensures var swallowed := path.Some? && Swallows(path.value) && default != [];
            Reload(x, FileText(path, default, groups)) ==
            Reload(x, BodyText(if swallowed then default[1..] else default, groups))
  {
    if path.None? {
      assert "" + BodyText(default, groups) == BodyText(default, groups);
    } else {
      assert default == [] && groups == [] ==> BodyText(default, groups) == "" && Lines(None, "") == []
        by { if default == [] && groups == [] { BodyOfGroups([]); } }
      hide Lines, BodyText, FileText, Built, NamesOk, Swallows, Comment;
      var line := FileSplits(path.value, default, groups);
      var body := Lines(None, BodyText(default, groups));
      assert [line] + [] == [line];
      if !Swallows(path.value) {
        BlankIsNothing(x, line, body);
      } else if default != [] {
        BlankIsNothing(x, line, Lines(None, BodyText(default[1..], groups)));
      } else if groups != [] {
        BlankIsNothing(x, line, body[1..]);
        BlankIsNothing(x, "", body[1..]);
        assert body == [""] + body[1..];
      } else {
        BlankIsNothing(x, line, []);
      }
    }
  }

  /**
   * Loading the printed file gives the configuration again exactly if every header carries a good name, no value has a
   * back quote, and no entry follows a comment whose path ends in a backslash.
   */
  lemma FileReloadsIff(x: Expander, path: Option<string>, default: seq<Entry>, groups: seq<Group>)
    requires Sound(default, groups) && (path.Some? ==> '\n' !in path.value)
    ensures Reload(x, FileText(path, default, groups)) == Some(ConfOf(default, groups)) <==>
            && AllGood(groups) && NoBackQuotes(default, groups)
            && (path.Some? && Swallows(path.value) ==> default == [])
  {
    SoundParts(default, groups);
    hide *;
    FileReloads(x, path, default, groups);
    if path.Some? && Swallows(path.value) && default != [] {
      EntryMissed(x, default, groups);
    } else {
      BodyReloadsIff(x, default, groups);
    }
  }

  // The sections of a configuration other than the default one, in any order.
  ghost predicate Enumerates(groups: seq<Group>, conf: Conf) {
    && Apart(groups)
    && (forall i :: 0 <= i < |groups| ==>
          groups[i].name != DEFAULT && groups[i].name in conf && groups[i].entries == conf[groups[i].name])
    && (forall s :: s in conf && s != DEFAULT ==> exists i :: 0 <= i < |groups| && groups[i].name == s)
  }

  lemma EnumeratedConf(groups: seq<Group>, conf: Conf)
    requires Enumerates(groups, conf) && DEFAULT in conf
    ensures ConfOf(conf[DEFAULT], groups) == conf
  {
    var c := ConfOf(conf[DEFAULT], groups);
    GroupsConfOnly(groups, DEFAULT);
    forall s | s in conf ensures s in c && c[s] == conf[s] {
      if s != DEFAULT {
        var i: nat :| i < |groups| && groups[i].name == s;
        GroupsConfHas(groups, i);
      }
    }
    forall s | s in c ensures s in conf {
      if s !in conf { GroupsConfOnly(groups, s); }
    }
  }

  lemma EnumeratedSound(groups: seq<Group>, conf: Conf)
    requires Enumerates(groups, conf) && ConfOk(conf)
    ensures Sound(conf[DEFAULT], groups)
  {
    hide EntriesOk;
  }

  /**
   * Any text that can be loaded, printed by the configutl command and loaded again, gives the configuration it gave the
   * first time, under exactly the conditions of FileReloadsIff.
   */
  lemma ReprintedReloadsIff(x: Expander, text: string, x': Expander, path: Option<string>, groups: seq<Group>)
    requires Reload(x, text).Some? && Enumerates(groups, Reload(x, text).value)
    requires path.Some? ==> '\n' !in path.value
    ensures var conf := Reload(x, text).value;
            && DEFAULT in conf
            && (Reload(x', FileText(path, conf[DEFAULT], groups)) == Some(conf) <==>
                && AllGood(groups) && NoBackQuotes(conf[DEFAULT], groups)
                && (path.Some? && Swallows(path.value) ==> conf[DEFAULT] == []))
  {
    var conf := Reload(x, text).value;
    LoadedOk(x, text);
    assert DEFAULT in conf;
    hide *;
    EnumeratedConf(groups, conf);
    EnumeratedSound(groups, conf);
    FileReloadsIff(x', path, conf[DEFAULT], groups);
  }

  // -------------------------------------------------------------------------
  // The printer.

  // Where the default section is in the list, if it is.
  function DefaultAt(sections: seq<Group>): (d: Option<nat>)
    ensures d.Some? ==> d.value < |sections| && sections[d.value].name == DEFAULT
    ensures d.None? ==> forall i :: 0 <= i < |sections| ==> sections[i].name != DEFAULT
  {
    if sections == [] then None
    else if sections[0].name == DEFAULT then Some(0)
    else
      var d := DefaultAt(sections[1..]);
      if d.None? then None else Some(d.value + 1)
  }

  function DefaultEntries(sections: seq<Group>): seq<Entry> {
    var d := DefaultAt(sections);
    if d.None? then [] else sections[d.value].entries
  }

  function Others(sections: seq<Group>): seq<Group> {
    var d := DefaultAt(sections);
    if d.None? then sections else sections[..d.value] + sections[d.value + 1..]
  }

  lemma {:induction false} GroupsTextAppend(a: seq<Group>, b: seq<Group>)
    ensures GroupsText(a + b) == GroupsText(a) + GroupsText(b)
    decreases |a|
  {
    hide GroupText;
    if a == [] {
      assert a + b == b && "" + GroupsText(b) == GroupsText(b);
    } else {
      assert (a + b)[1..] == a[1..] + b;
      GroupsTextAppend(a[1..], b);
      Associative(GroupText(a[0]), GroupsText(a[1..]), GroupsText(b));
    }
  }

  lemma GroupsTextMore(groups: seq<Group>, g: Group)
    ensures GroupsText(groups + [g]) == GroupsText(groups) + GroupText(g)
  {
    hide GroupText;
    GroupsTextAppend(groups, [g]);
    assert [g][1..] == [] && GroupText(g) + "" == GroupText(g);
  }

  // What is printed of the first sections: all but the default one.
  function Printed(sections: seq<Group>, d: Option<nat>, idx: nat): seq<Group>
    requires idx <= |sections| && (d.Some? ==> d.value < |sections|)
  {
    if d.Some? && d.value < idx then sections[..d.value] + sections[d.value + 1..idx] else sections[..idx]
  }

  lemma PrintedMore(sections: seq<Group>, d: Option<nat>, idx: nat)
    requires idx < |sections| && (d.Some? ==> d.value < |sections|)
    ensures Printed(sections, d, idx + 1)
         == if d == Some(idx) then Printed(sections, d, idx) else Printed(sections, d, idx) + [sections[idx]]
  {
    if d.Some? && d.value < idx {
      assert sections[d.value + 1..idx + 1] == sections[d.value + 1..idx] + [sections[idx]];
    } else if d == Some(idx) {
      assert sections[idx + 1..idx + 1] == [] && sections[..idx] + [] == sections[..idx];
    }
  }

  // The output of configutl_main().
  method PrintFile(path: Option<string>, sections: seq<Group>) returns (out: string)
    ensures out == FileText(path, DefaultEntries(sections), Others(sections))
  {
    hide SectionText, GroupsText;
    out := "";
    if path.Some? { out := COMMENT + path.value + "\n"; }
    ghost var head, default := out, DefaultEntries(sections);
    var d := DefaultAt(sections);
    if d.Some? {
      var section := PrintSection(sections[d.value].entries);
      out := out + section;
    }
    ghost var start := out;
    assert start == head + SectionText(default) by {
      if d.None? { NothingPrinted(sections, d); assert head + "" == head; }
    }
    assert start + GroupsText(Printed(sections, d, 0)) == start by {
      NothingPrinted(sections, d);
      assert start + "" == start;
    }
    var idx := 0;
    while idx < |sections|
      invariant 0 <= idx <= |sections|
      invariant out == start + GroupsText(Printed(sections, d, idx))
    {
      PrintedMore(sections, d, idx);
      if d != Some(idx) {
        ghost var before := Printed(sections, d, idx);
        out := out + "\n[" + sections[idx].name + "]\n";
        var section := PrintSection(sections[idx].entries);
        out := out + section;
        GroupsTextMore(before, sections[idx]);
        GroupAppended(start + GroupsText(before), sections[idx]);
        Associative(start, GroupsText(before), GroupText(sections[idx]));
      }
      idx := idx + 1;
    }
    assert Printed(sections, d, |sections|) == Others(sections) by {
      assert sections[..|sections|] == sections;
    }
    Associative(head, SectionText(default), GroupsText(Others(sections)));
  }

  lemma NothingPrinted(sections: seq<Group>, d: Option<nat>)
    requires d.Some? ==> d.value < |sections|
    ensures GroupsText(Printed(sections, d, 0)) == "" && SectionText([]) == ""
  {
  }

  lemma GroupAppended(a: string, g: Group)
    ensures a + "\n[" + g.name + "]\n" + SectionText(g.entries) == a + GroupText(g)
  {
    hide SectionText;
    var s := SectionText(g.entries);
    assert "\n" + ("[" + g.name + "]") + "\n" + s == "\n[" + g.name + "]\n" + s;
    assert a + "\n[" + g.name + "]\n" + s == a + ("\n[" + g.name + "]\n" + s);
  }

  // -------------------------------------------------------------------------
  // Inputs.

  lemma ReadHeaderAs(expand: Expand, start: string, e: nat, name: string)
    requires start != "" && !IsWs(start[0]) && Uncommented(None, start) == start
    requires EatWords(start) == Some(e) && Copy(expand, None, start[..e]) == Some(name)
    ensures ReadLine(expand, ['['] + start) == Section(name)
  {
    UncommentedChar('[', start);
    assert (['['] + start)[1..] == start;
    FirstKept(start);
    FirstKept(['['] + start);
    hide Uncommented, EatWords, Copy, EatWs, IsWs;
  }

  /** The name a]b, which a file can give as [a\]b], is printed in a header that is read as the section a. */
  lemma BracketIsLost(expand: Expand)
    ensures ReadLine(expand, "[a\\]b]") == Section("a]b") && ReadLine(expand, HeaderText("a]b")) == Section("a")
  {
    var s, t := "a\\]b]", "a]b]";
    EscapedBracket(expand);
    BareBracket(expand);
    ReadHeaderAs(expand, s, 4, "a]b");
    ReadHeaderAs(expand, t, 1, "a");
    assert ['['] + s == "[a\\]b]" && ['['] + t == HeaderText("a]b");
  }

  lemma EscapedBracket(expand: Expand)
    ensures var s := "a\\]b]";
            Uncommented(None, s) == s && EatWords(s) == Some(4) && Copy(expand, None, s[..4]) == Some("a]b")
  {
    var s := "a\\]b]";
    assert s[..4] == "a\\]b";
    hide *;
    EscapedUncommented();
    EscapedWords();
    EscapedCopied(expand);
  }

  lemma EscapedUncommented()
    ensures Uncommented(None, "a\\]b]") == "a\\]b]"
  {
    TailUncommented();
    hide Uncommented, IsQuote;
    ScanPair(None, ']', "b]");
    assert !IsQuote('a') by { PlainChar('a'); }
    UncommentedChar('a', "\\]b]");
    assert ['\\', ']'] + "b]" == "\\]b]" && ['a'] + "\\]b]" == "a\\]b]";
  }

  lemma TailUncommented()
    ensures Uncommented(None, "b]") == "b]" && !IsQuote(']')
  {
    NothingUncommented();
    UncommentedChar(']', "");
    UncommentedChar('b', "]");
    hide Uncommented;
    assert [']'] + "" == "]" && ['b'] + "]" == "b]";
  }

  lemma EscapedWords()
    ensures EatWords("a\\]b]") == Some(4)
  {
    var s, t, u := "a\\]b]", "\\]b]", "b]";
    assert s[1..] == t && t[2..] == u && u[1..] == "]" && s[4..] == "]";
    assert EatName(u) == 1 && EatName(t) == 3 && EatName(s) == 4;
    FirstKept("]");
    hide EatName, EatWs, EatWords;
    OneWord(s, 4, "]");
  }

  lemma EscapedCopied(expand: Expand)
    ensures Copy(expand, None, "a\\]b") == Some("a]b")
  {
    var s, t, u := "a\\]b", "\\]b", "b";
    CopyPlain(expand, u);
    assert s[1..] == t && t[2..] == u;
    assert [']'] + u == "]b" && ['a'] + "]b" == "a]b";
    assert Copy(expand, None, t) == Some("]b");
  }

  lemma BareBracket(expand: Expand)
    ensures var s := "a]b]";
            Uncommented(None, s) == s && EatWords(s) == Some(1) && Copy(expand, None, s[..1]) == Some("a")
  {
    var s := "a]b]";
    assert s[..1] == "a" && s[1..] == "]b]" && [']'] + "b]" == "]b]" && ['a'] + "]b]" == s;
    assert Plain("a") && EatName("]b]") == 0 && EatName(s) == 1;
    PlainChar('a');
    FirstKept("]b]");
    TailUncommented();
    hide *;
    CopyPlain(expand, "a");
    UncommentedChar(']', "b]");
    UncommentedChar('a', "]b]");
    OneWord(s, 1, "]b]");
    assert AfterWord(s, 1, "]b]", EatWords("]b]")) == Some(1) by { BracketFollows(s, "]b]"); }
  }

  lemma BracketFollows(s: string, p: string)
    requires |p| <= |s| && p != "" && p[0] == ']'
    ensures AfterWord(s, 1, p, EatWords(p)) == Some(1)
  {
  }

  lemma InputOk()
    ensures var entries := [Entry("a", "1")]; NamesOk(entries) && entries[1..] == [] && Swallows("x\\") && Sound([], [])
  {
    assert Named("a") by { assert "a"[1..] == ""; }
  }

  /** The only entry of a file is lost if the comment above it ends in a backslash. */
  lemma BackslashSwallows(x: Expander)
    ensures Reload(x, FileText(Some("x\\"), [Entry("a", "1")], [])) == Some(START.conf)
  {
    var path, entries := "x\\", [Entry("a", "1")];
    hide Reload, FileText, BodyText, Swallows, NamesOk, Sound;
    InputOk();
    FileReloads(x, Some(path), entries, []);
    var default', groups' := BodyReloaded(x, [], []);
    assert default' == [] && groups' == [];
    assert ConfOf([], []) == map[DEFAULT := []];
  }
}
