// The list of configuration sections of the cmp command: prev_item() walks it from its end, and conf_get_string() asks
// the sections it meets for a value.
module Sections {
  import opened Prelude

  const SECTION_NAME_MAX: nat := 40

  predicate Separates(c: char) {
    c == ',' || IsSpace(c)
  }

  function Cut(s: string): string {
    if |s| > SECTION_NAME_MAX then s[..SECTION_NAME_MAX] else s
  }

  // Where the name that ends at a position starts, and where the last name before a position ends.
  function WordStart(s: string, end: nat): (r: nat)
    requires end <= |s|
    ensures r <= end
  {
    if end == 0 || Separates(s[end - 1]) then end else WordStart(s, end - 1)
  }

  function WordEnd(s: string, end: nat): (r: nat)
    requires end <= |s|
    ensures r <= end
  {
    if end > 0 && Separates(s[end - 1]) then WordEnd(s, end - 1) else end
  }

  lemma {:induction false} WordIsMaximal(s: string, end: nat)
    requires end <= |s|
    ensures Word(s[WordStart(s, end)..end])
    ensures WordStart(s, end) > 0 ==> Separates(s[WordStart(s, end) - 1])
  {
    hide Separates;
    if end > 0 && !Separates(s[end - 1]) {
      WordIsMaximal(s, end - 1);
      var beg := WordStart(s, end - 1);
      assert WordStart(s, end) == beg;
      hide WordStart;
      assert s[beg..end] == s[beg..end - 1] + [s[end - 1]];
    }
  }

  lemma {:induction false} EndIsAfterWord(s: string, end: nat)
    requires end <= |s|
    ensures WordEnd(s, end) > 0 ==> !Separates(s[WordEnd(s, end) - 1])
  {
    if end > 0 && Separates(s[end - 1]) { EndIsAfterWord(s, end - 1); }
  }

  predicate Word(w: string) {
    forall i :: 0 <= i < |w| ==> !Separates(w[i])
  }

  // The names in the order they are met, going left from a position.
  function Items(s: string, end: nat): seq<string>
    requires end <= |s|
  {
    if end == 0 then []
    else
      var beg := WordStart(s, end);
      [Cut(s[beg..end])] + Items(s, WordEnd(s, beg))
  }

  lemma ItemsFrom(s: string, end: nat)
    requires 0 < end <= |s|
    ensures var beg := WordStart(s, end);
            WordEnd(s, beg) < end && Items(s, end) == [Cut(s[beg..end])] + Items(s, WordEnd(s, beg))
  {
  }

  // opt_item is the item; end is a position in opt, and so is the result.
  method PrevItem(opt: string, end: nat) returns (next: Option<nat>, item: string)
    requires end <= |opt|
    ensures next.None? <==> end == 0
    ensures next.Some? ==> next.value < end && Items(opt, end) == [item] + Items(opt, next.value)
  {
    next, item := None, "";
    if end == 0 { return; }
    ItemsFrom(opt, end);
    hide Items;
    var beg := end;
    while beg > 0 && !Separates(opt[beg - 1])
      invariant 0 <= beg <= end
      invariant WordStart(opt, end) == WordStart(opt, beg)
    {
      beg := beg - 1;
    }
    var len := end - beg;
    if len > SECTION_NAME_MAX { len := SECTION_NAME_MAX; }
    item := opt[beg..beg + len];
    assert opt[beg..end][..len] == item;
    ghost var word := beg;
    while beg > 0 && Separates(opt[beg - 1])
      invariant 0 <= beg <= word
      invariant WordEnd(opt, word) == WordEnd(opt, beg)
    {
      beg := beg - 1;
    }
    next := Some(beg);
  }

  // -------------------------------------------------------------------------
  // The same list read from the left: maximal runs without separators.

  function WordLength(s: string): (k: nat)
    ensures k <= |s| && (forall i :: 0 <= i < k ==> !Separates(s[i])) && (k < |s| ==> Separates(s[k]))
  {
    if s == "" || Separates(s[0]) then 0 else 1 + WordLength(s[1..])
  }

  function Tokens(s: string): seq<string> {
    if s == "" then []
    else if Separates(s[0]) then Tokens(s[1..])
    else [s[..WordLength(s)]] + Tokens(s[WordLength(s)..])
  }

  // The tokens from the right, cut to size.
  function Backwards(ts: seq<string>): seq<string> {
    if ts == [] then [] else [Cut(ts[|ts| - 1])] + Backwards(ts[..|ts| - 1])
  }

  lemma BackwardsFrom(ts: seq<string>, w: string)
    ensures Backwards(ts + [w]) == [Cut(w)] + Backwards(ts)
  {
    assert (ts + [w])[..|ts|] == ts;
  }

  lemma {:induction false} WordLengthOf(w: string, b: string)
    requires Word(w) && (b != "" ==> Separates(b[0]))
    ensures WordLength(w + b) == |w|
  {
    if w == "" {
      assert w + b == b;
    } else {
      assert (w + b)[1..] == w[1..] + b;
      WordLengthOf(w[1..], b);
    }
  }

  lemma WordThen(w: string, rest: string)
    requires w != "" && Word(w) && (rest != "" ==> Separates(rest[0]))
    ensures Tokens(w + rest) == [w] + Tokens(rest)
  {
    WordLengthOf(w, rest);
    hide WordLength, Word, Separates;
    assert (w + rest)[..|w|] == w && (w + rest)[|w|..] == rest && (w + rest)[0] == w[0];
    assert !Separates(w[0]) by { FirstOfWord(w); }
  }

  lemma FirstOfWord(w: string)
    requires w != "" && Word(w)
    ensures !Separates(w[0])
  {
  }

  lemma TokensSkip(c: char, rest: string)
    requires Separates(c)
    ensures Tokens([c] + rest) == Tokens(rest)
  {
    hide Separates, WordLength;
    assert ([c] + rest)[1..] == rest;
  }

  // Reading on after a separator.
  lemma {:induction false} TokensSplit(a: string, c: char, b: string)
    requires Separates(c)
    ensures Tokens(a + [c] + b) == Tokens(a) + Tokens(b)
    decreases |a|
  {
    assert Tokens("") == [];
    hide Tokens, Separates;
    if a == "" {
      assert "" + [c] + b == [c] + b;
      TokensSkip(c, b);
    } else if Separates(a[0]) {
      assert a + [c] + b == [a[0]] + (a[1..] + [c] + b) && a == [a[0]] + a[1..];
      TokensSplit(a[1..], c, b);
      TokensSkip(a[0], a[1..]);
      TokensSkip(a[0], a[1..] + [c] + b);
    } else {
      var k := WordLength(a);
      assert a == a[..k] + a[k..];
      TokensSplit(a[k..], c, b);
      WordThenMore(a[..k], a[k..], c, b);
    }
  }

  lemma WordThenMore(w: string, rest: string, c: char, b: string)
    requires w != "" && Word(w) && (rest != "" ==> Separates(rest[0])) && Separates(c)
    requires Tokens(rest + [c] + b) == Tokens(rest) + Tokens(b)
    ensures Tokens(w + rest + [c] + b) == Tokens(w + rest) + Tokens(b)
  {
    hide Tokens, Separates, Word;
    assert w + rest + [c] + b == w + (rest + [c] + b);
    WordThen(w, rest);
    WordThen(w, rest + [c] + b);
    assert [w] + (Tokens(rest) + Tokens(b)) == [w] + Tokens(rest) + Tokens(b);
  }

  lemma TokensOfWord(w: string)
    requires Word(w)
    ensures Tokens(w) == if w == "" then [] else [w]
  {
    if w != "" {
      WordLengthOf(w, "");
      assert w + "" == w && w[..|w|] == w && w[|w|..] == "";
    }
  }

  lemma {:induction false} TokensToEnd(s: string, end: nat)
    requires end <= |s|
    ensures Tokens(s[..WordEnd(s, end)]) == Tokens(s[..end])
  {
    if end > 0 && Separates(s[end - 1]) {
      assert s[..end] == s[..end - 1] + [s[end - 1]] + "";
      TokensSplit(s[..end - 1], s[end - 1], "");
      TokensToEnd(s, end - 1);
    }
  }

  // One step from the right takes the last token.
  lemma TokensToStart(s: string, end: nat)
    requires end <= |s|
    ensures var beg := WordStart(s, end);
            Tokens(s[..end]) == Tokens(s[..beg]) + if beg == end then [] else [s[beg..end]]
  {
    hide Tokens;
    var beg := WordStart(s, end);
    WordIsMaximal(s, end);
    hide WordStart;
    TokensOfWord(s[beg..end]);
    if beg > 0 {
      assert s[..end] == s[..beg - 1] + [s[beg - 1]] + s[beg..end];
      TokensSplit(s[..beg - 1], s[beg - 1], s[beg..end]);
      assert s[..beg] == s[..beg - 1] + [s[beg - 1]] + "";
      TokensSplit(s[..beg - 1], s[beg - 1], "");
    } else {
      assert s[..end] == s[beg..end] && s[..beg] == "";
    }
    TokensOfWord("");
  }

  /** prev_item yields the tokens right to left, after one empty name exactly if the list ends in a separator. */
  lemma {:induction false} ItemsAreTokens(s: string, end: nat)
    requires end <= |s|
    ensures Items(s, end) == (if end > 0 && Separates(s[end - 1]) then [""] else []) + Backwards(Tokens(s[..end]))
    decreases end
  {
    hide Tokens, WordStart, WordEnd, Items, Backwards, Word, Separates;
    if end == 0 {
      NoItems(s);
    } else {
      var beg := WordStart(s, end);
      var next := WordEnd(s, beg);
      ItemsFrom(s, end);
      EndIsAfterWord(s, beg);
      ItemsAreTokens(s, next);
      assert Items(s, next) == Backwards(Tokens(s[..next]));
      TokensToStart(s, end);
      TokensToEnd(s, beg);
      LastItem(s, end, Tokens(s[..next]));
    }
  }

  lemma NoItems(s: string)
    ensures Items(s, 0) == [] == Backwards(Tokens(s[..0]))
  {
    assert s[..0] == "";
  }

  lemma LastItem(s: string, end: nat, ts: seq<string>)
    requires 0 < end <= |s|
    ensures var beg := WordStart(s, end);
            && (beg == end <==> Separates(s[end - 1]))
            && [Cut(s[beg..end])] + Backwards(ts) ==
               (if beg == end then [""] else []) + Backwards(ts + if beg == end then [] else [s[beg..end]])
  {
    hide Separates, Backwards;
    var beg := WordStart(s, end);
    if beg < end { BackwardsFrom(ts, s[beg..end]); } else { assert ts + [] == ts && s[beg..end] == ""; }
  }

  // -------------------------------------------------------------------------
  // Values.

  // A configuration maps section and name to a value; the section called ENV falls back on the environment.
  datatype Conf = Conf(values: map<(string, string), string>, env: map<string, string>) {
    function Own(section: string, name: string): Option<string> {
      if (section, name) in values then Some(values[(section, name)])
      else if section == "ENV" && name in env then Some(env[name])
      else None
    }

    function Default(name: string): Option<string> {
      if ("default", name) in values then Some(values[("default", name)]) else None
    }

    // app_conf_try_string()
    function Try(section: string, name: string): Option<string> {
      if Own(section, name).Some? then Own(section, name) else Default(name)
    }
  }

  function FirstTry(conf: Conf, items: seq<string>, name: string): Option<string> {
    if items == [] then None
    else if conf.Try(items[0], name).Some? then conf.Try(items[0], name)
    else FirstTry(conf, items[1..], name)
  }

  method ConfGetString(conf: Conf, groups: string, name: string) returns (res: Option<string>)
    ensures res == FirstTry(conf, Items(groups, |groups|), name)
  {
    res := None;
    var end := |groups|;
    while true
      invariant 0 <= end <= |groups|
      invariant res.None?
      invariant FirstTry(conf, Items(groups, |groups|), name) == FirstTry(conf, Items(groups, end), name)
      decreases end
    {
      var next, item := PrevItem(groups, end);
      if next.None? { return; }
      end := next.value;
      res := conf.Try(item, name);
      if res.Some? { return; }
    }
  }

  // The value in the rightmost of the listed sections that has one.
  function Rightmost(conf: Conf, items: seq<string>, name: string): Option<string> {
    if items == [] then None
    else if conf.Own(items[0], name).Some? then conf.Own(items[0], name)
    else Rightmost(conf, items[1..], name)
  }

  // The names that are listed, from the right.
  function Reversed(ts: seq<string>): (r: seq<string>)
    ensures |r| == |ts| && forall t :: t in r <==> t in ts
  {
    if ts == [] then []
    else
      assert ts == ts[..|ts| - 1] + [ts[|ts| - 1]];
      [ts[|ts| - 1]] + Reversed(ts[..|ts| - 1])
  }

  function Listed(groups: string): seq<string> {
    Reversed(Tokens(groups))
  }

  // What the manual promises: later sections override earlier ones, the default section is the fallback in any case.
  function Promised(conf: Conf, groups: string, name: string): Option<string> {
    OrDefault(conf, Rightmost(conf, Listed(groups), name), name)
  }

  predicate TooLong(name: string) {
    |name| > SECTION_NAME_MAX
  }

  predicate NoneTooLong(groups: string) {
    forall t :: t in Tokens(groups) ==> !TooLong(t)
  }

  lemma {:induction false} BackwardsUncut(ts: seq<string>)
    requires forall t :: t in ts ==> !TooLong(t)
    ensures Backwards(ts) == Reversed(ts)
    decreases |ts|
  {
    if ts != [] {
      assert !TooLong(ts[|ts| - 1]);
      assert forall t :: t in ts[..|ts| - 1] ==> t in ts;
      BackwardsUncut(ts[..|ts| - 1]);
    }
  }

  // The empty name that comes before the others if the list ends in a separator.
  function EmptyFirst(groups: string): seq<string> {
    if groups != "" && Separates(groups[|groups| - 1]) then [""] else []
  }

  lemma ItemsOf(groups: string)
    ensures Items(groups, |groups|) == EmptyFirst(groups) + Backwards(Tokens(groups))
    ensures NoneTooLong(groups) ==> Items(groups, |groups|) == EmptyFirst(groups) + Listed(groups)
  {
    hide Items, Tokens, Backwards, Reversed;
    ItemsAreTokens(groups, |groups|);
    assert groups[..|groups|] == groups;
    if NoneTooLong(groups) { BackwardsUncut(Tokens(groups)); }
  }

  lemma {:induction false} FirstTryNoDefault(conf: Conf, items: seq<string>, name: string)
    requires conf.Default(name).None?
    ensures FirstTry(conf, items, name) == Rightmost(conf, items, name)
  {
    if items != [] { FirstTryNoDefault(conf, items[1..], name); }
  }

  lemma RightmostAfterEmpty(conf: Conf, groups: string, names: seq<string>, name: string)
    requires conf.Own("", name).None?
    ensures Rightmost(conf, EmptyFirst(groups) + names, name) == Rightmost(conf, names, name)
  {
    assert ([""] + names)[1..] == names && [] + names == names;
  }

  function OrDefault(conf: Conf, value: Option<string>, name: string): Option<string> {
    if value.Some? then value else conf.Default(name)
  }

  // A list that starts, from the right, with a section that is listed.
  lemma KeptFrom(conf: Conf, names: seq<string>, name: string)
    requires names != []
    ensures FirstTry(conf, names, name) == OrDefault(conf, Rightmost(conf, names, name), name) <==>
            || conf.Own(names[0], name).Some?
            || conf.Default(name).None? || Rightmost(conf, names, name) in [None, conf.Default(name)]
  {
    if conf.Default(name).None? { FirstTryNoDefault(conf, names, name); }
  }

  // One that starts with the empty name.
  lemma KeptAfterEmpty(conf: Conf, names: seq<string>, name: string)
    ensures FirstTry(conf, [""] + names, name) == OrDefault(conf, Rightmost(conf, names, name), name) <==>
            if conf.Own("", name).Some? then conf.Own("", name) == OrDefault(conf, Rightmost(conf, names, name), name)
            else conf.Default(name).None? || Rightmost(conf, names, name) in [None, conf.Default(name)]
  {
    assert ([""] + names)[1..] == names && ([""] + names)[0] == "";
    if conf.Default(name).None? { FirstTryNoDefault(conf, names, name); }
  }

  /**
   * The promise is kept, for a list without names of more than 40 characters, exactly if the first name from the right
   * has the value promised or none, and in the second case the default section has none or does not come between.
   */
  lemma PromiseKeptIff(conf: Conf, groups: string, name: string)
    requires NoneTooLong(groups)
    ensures var items, default := Items(groups, |groups|), conf.Default(name);
            FirstTry(conf, items, name) == Promised(conf, groups, name) <==>
            if items == [] then default.None?
            else if conf.Own(items[0], name).Some? then
              items[0] != "" || conf.Own("", name) == Promised(conf, groups, name)
            else default.None? || Rightmost(conf, Listed(groups), name) in [None, default]
  {
    var items, names := Items(groups, |groups|), Listed(groups);
    ItemsOf(groups);
    TokensNotEmpty(groups);
    assert names != [] ==> names[0] in Tokens(groups);
    hide Items, Listed, Tokens, NoneTooLong, Conf.Own, Conf.Default, FirstTry;
    if EmptyFirst(groups) != [] {
      KeptAfterEmpty(conf, names, name);
    } else {
      assert [] + names == names;
      if names != [] { KeptFrom(conf, names, name); } else { NothingAsked(conf, name); }
    }
  }

  lemma NothingAsked(conf: Conf, name: string)
    ensures FirstTry(conf, [], name) == None
  {
  }

  // No listed name is empty.
  lemma {:induction false} TokensNotEmpty(s: string)
    ensures forall t :: t in Tokens(s) ==> t != ""
    decreases |s|
  {
    if s != "" {
      if Separates(s[0]) {
        TokensNotEmpty(s[1..]);
      } else {
        TokensNotEmpty(s[WordLength(s)..]);
      }
    }
  }

  // The value of the rightmost section that has one is found in every configuration without a default value, and
  // without a section of the empty name.
  ghost predicate AlwaysFound(groups: string) {
    forall conf: Conf, name: string :: conf.Default(name).None? && conf.Own("", name).None? ==>
      FirstTry(conf, Items(groups, |groups|), name) == Rightmost(conf, Listed(groups), name)
  }

  // A configuration in which only one section has a value.
  function Only(section: string): Conf {
    Conf(map[(section, "x") := "1"], map[])
  }

  lemma {:induction false} OnlyThere(section: string, names: seq<string>)
    ensures Rightmost(Only(section), names, "x") == if section in names then Some("1") else None
  {
    if names != [] { OnlyThere(section, names[1..]); }
  }

  lemma {:induction false} BackwardsCut(ts: seq<string>)
    ensures forall t :: t in Backwards(ts) ==> !TooLong(t)
    decreases |ts|
  {
    if ts != [] { BackwardsCut(ts[..|ts| - 1]); }
  }

  /** That is so exactly if no listed name has more than 40 characters. */
  lemma AlwaysFoundIff(groups: string)
    ensures AlwaysFound(groups) <==> NoneTooLong(groups)
  {
    ItemsOf(groups);
    if NoneTooLong(groups) {
      forall conf: Conf, name: string | conf.Default(name).None? && conf.Own("", name).None?
        ensures FirstTry(conf, Items(groups, |groups|), name) == Rightmost(conf, Listed(groups), name)
      {
        FirstTryNoDefault(conf, Items(groups, |groups|), name);
        RightmostAfterEmpty(conf, groups, Listed(groups), name);
      }
    } else {
      var t :| t in Tokens(groups) && TooLong(t);
      LongNameLost(groups, t);
    }
  }

  /** The value of a section whose name has more than 40 characters is not found. */
  lemma LongNameLost(groups: string, t: string)
    requires t in Tokens(groups) && TooLong(t)
    ensures var conf := Only(t);
            && conf.Default("x").None? && conf.Own("", "x").None?
            && FirstTry(conf, Items(groups, |groups|), "x") == None
            && Rightmost(conf, Listed(groups), "x") == Promised(conf, groups, "x") == Some("1")
  {
    var conf, items := Only(t), Items(groups, |groups|);
    ItemsOf(groups);
    BackwardsCut(Tokens(groups));
    hide Items, Tokens, Backwards, Reversed;
    assert conf.Default("x").None? && conf.Own("", "x").None?;
    FirstTryNoDefault(conf, items, "x");
    OnlyThere(t, items);
    OnlyThere(t, Listed(groups));
  }

  /** Names are separated by commas and by the characters that isspace() accepts. */
  lemma SeparatorsAre(c: char)
    ensures Separates(c) <==> c in [',', ' ', '\t', '\n', 11 as char, 12 as char, '\r']
  {
  }

  /**
   * One section is asked for a value and then the default section.  The environment counts only for the section called
   * ENV, after the values of that section.
   */
  lemma AskedInTurn(conf: Conf, section: string, name: string)
    ensures (section, name) in conf.values ==> conf.Try(section, name) == Some(conf.values[(section, name)])
    ensures (section, name) !in conf.values && section != "ENV" ==>
              conf.Try(section, name) == Conf(conf.values, map[]).Try("default", name)
    ensures (section, name) !in conf.values && section == "ENV" && name in conf.env ==>
              conf.Try(section, name) == Some(conf.env[name])
    ensures (section, name) !in conf.values && section == "ENV" && name !in conf.env ==>
              conf.Try(section, name) == conf.Try("default", name)
    ensures conf.values == map[] && section != "ENV" ==> conf.Try(section, name).None?
  {
  }

  /** A list of one name of 41 characters. */
  lemma FortyOneCharacters()
    ensures var s := seq(41, _ => 'a');
            FirstTry(Only(s), Items(s, 41), "x") == None && Promised(Only(s), s, "x") == Some("1")
  {
    var s := seq(41, _ => 'a');
    TokensOfWord(s);
    assert s in [s];
    hide Tokens, Items;
    LongNameLost(s, s);
  }

  /** One of 40 characters is found. */
  lemma FortyCharacters()
    ensures var s := seq(40, _ => 'a');
            FirstTry(Only(s), Items(s, 40), "x") == Some("1") && Promised(Only(s), s, "x") == Some("1")
  {
    var s := seq(40, _ => 'a');
    TokensOfWord(s);
    ReversedPair(s, s);
    assert Listed(s) == [s] && NoneTooLong(s);
    hide Tokens, Items, Listed;
    AlwaysFoundIff(s);
    OnlyThere(s, [s]);
    assert Only(s).Default("x").None? && Only(s).Own("", "x").None?;
  }

  /** A value in the default section hides the one in a section that is not listed last. */
  lemma DefaultHidesEarlier()
    ensures var conf := Conf(map[("a", "x") := "1", ("default", "x") := "2"], map[]);
            && FirstTry(conf, Items("a,b", 3), "x") == Some("2")
            && Promised(conf, "a,b", "x") == Some("1")
  {
    var s := "a,b";
    PairListed();
    hide Tokens, Items, Listed;
    ItemsOf(s);
    assert EmptyFirst(s) + ["b", "a"] == ["b", "a"] && ["b", "a"][1..] == ["a"];
  }

  lemma PairListed()
    ensures Listed("a,b") == ["b", "a"] && NoneTooLong("a,b")
  {
    TokensOfWord("a");
    TokensOfWord("b");
    hide Tokens;
    assert "a,b" == "a" + [','] + "b";
    TokensSplit("a", ',', "b");
    assert Tokens("a,b") == ["a", "b"];
    ReversedPair("a", "b");
  }

  lemma ReversedPair(a: string, b: string)
    ensures Reversed([a, b]) == [b, a] && Reversed([a]) == [a]
  {
    assert [a, b][..1] == [a] && [a][..0] == [];
  }

  /** Of a list that ends in a separator the empty name comes first: the default section hides all that are listed. */
  lemma TrailingSeparatorHides(conf: Conf, groups: string, name: string)
    requires groups != "" && Separates(groups[|groups| - 1]) && conf.Own("", name).None? && conf.Default(name).Some?
    ensures FirstTry(conf, Items(groups, |groups|), name) == conf.Default(name)
  {
    ItemsAreTokens(groups, |groups|);
  }

  lemma LastListedHidden()
    ensures var conf := Conf(map[("a", "x") := "1", ("default", "x") := "2"], map[]);
            && FirstTry(conf, Items("a,", 2), "x") == Some("2")
            && Promised(conf, "a,", "x") == Some("1")
  {
    var s := "a,";
    TokensOfWord("a");
    TokensOfWord("");
    assert s == "a" + [','] + "";
    TokensSplit("a", ',', "");
    assert Tokens(s) == ["a"];
    hide Tokens, Items;
    ReversedPair("a", "a");
    ItemsOf(s);
  }
}
