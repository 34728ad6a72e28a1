/**
 * What the reader of configuration files makes of a text in whatever way it is written: values in pieces, comments,
 * blanks around a name, a value or a header, lines that go on, and values that are given again.
 */
module ConfReader {
  import opened Prelude
  import opened ConfEscape
  import opened ConfFile
  import opened ConfReload

  // -------------------------------------------------------------------------
  // A value in pieces: characters that stand for themselves, characters behind a backslash, and quotations.

  datatype Inner = Lit(c: char) | Behind(c: char)

  datatype Piece = Plain(c: char) | Escape(c: char) | Quoted(quote: char, inside: seq<Inner>)

  predicate InnerOk(quote: char, i: Inner) {
    i.Lit? ==> i.c != quote && i.c != '\\'
  }

  predicate InsideOk(quote: char, inside: seq<Inner>) {
    forall i :: 0 <= i < |inside| ==> InnerOk(quote, inside[i])
  }

  predicate PieceOk(p: Piece) {
    match p
    case Plain(c) => c !in "\"'`\\$"
    case Escape(_) => true
    case Quoted(quote, inside) => quote in "\"'`" && InsideOk(quote, inside)
  }

  predicate PiecesOk(ps: seq<Piece>) {
    forall i :: 0 <= i < |ps| ==> PieceOk(ps[i])
  }

  function InnerText(i: Inner): string {
    if i.Lit? then [i.c] else ['\\', i.c]
  }

  function InsideText(inside: seq<Inner>): string {
    if inside == [] then "" else InnerText(inside[0]) + InsideText(inside[1..])
  }

  function PieceText(p: Piece): string {
    match p
    case Plain(c) => [c]
    case Escape(c) => ['\\', c]
    case Quoted(quote, inside) => [quote] + (InsideText(inside) + [quote])
  }

  function Text(ps: seq<Piece>): string {
    if ps == [] then "" else PieceText(ps[0]) + Text(ps[1..])
  }

  // Inside a quotation a backslash only protects what is behind it; outside it can also stand for a control character.
  function InsideValue(inside: seq<Inner>): string {
    if inside == [] then "" else [inside[0].c] + InsideValue(inside[1..])
  }

  function PieceValue(p: Piece): string {
    match p
    case Plain(c) => [c]
    case Escape(c) =>
      if c == 'n' then "\n" else if c == 'r' then "\r" else if c == 't' then "\t" else if c == 'b' then [8 as char]
      else [c]
    case Quoted(_, inside) => InsideValue(inside)
  }

  function Value(ps: seq<Piece>): string {
    if ps == [] then "" else PieceValue(ps[0]) + Value(ps[1..])
  }

  lemma PrependTwice(a: string, b: string, r: Option<string>)
    ensures Prepend(a, Prepend(b, r)) == Prepend(a + b, r)
    ensures Prepend("", r) == r
  {
    if r.Some? { assert a + (b + r.value) == a + b + r.value && "" + r.value == r.value; }
  }

  lemma CopyInner(expand: Expand, quote: char, i: Inner, rest: string)
    requires InnerOk(quote, i) && quote != '\\'
    ensures Copy(expand, Some(quote), InnerText(i) + rest) == Prepend([i.c], Copy(expand, Some(quote), rest))
  {
    var s := InnerText(i) + rest;
    if i.Lit? { assert s[1..] == rest; } else { assert s[2..] == rest; }
  }

  lemma {:induction false} CopyInside(expand: Expand, quote: char, inside: seq<Inner>, rest: string)
    requires InsideOk(quote, inside) && quote != '\\'
    ensures Copy(expand, Some(quote), InsideText(inside) + rest) ==
            Prepend(InsideValue(inside), Copy(expand, Some(quote), rest))
    decreases |inside|
  {
    hide Copy, InnerOk, InnerText, Prepend;
    var r := Copy(expand, Some(quote), rest);
    if inside == [] {
      assert "" + rest == rest;
      PrependTwice("", "", r);
    } else {
      var more := InsideText(inside[1..]) + rest;
      CopyInside(expand, quote, inside[1..], rest);
      CopyInner(expand, quote, inside[0], more);
      Associative(InnerText(inside[0]), InsideText(inside[1..]), rest);
      PrependTwice([inside[0].c], InsideValue(inside[1..]), r);
    }
  }

  lemma CopyPiece(expand: Expand, p: Piece, rest: string)
    requires PieceOk(p)
    ensures Copy(expand, None, PieceText(p) + rest) == Prepend(PieceValue(p), Copy(expand, None, rest))
  {
    var s := PieceText(p) + rest;
    if p.Quoted? {
      CopyQuoted(expand, p.quote, p.inside, rest);
    } else if p.Plain? {
      assert s[1..] == rest;
    } else {
      assert s[2..] == rest;
    }
  }

  lemma CopyQuoted(expand: Expand, quote: char, inside: seq<Inner>, rest: string)
    requires PieceOk(Quoted(quote, inside))
    ensures Copy(expand, None, [quote] + (InsideText(inside) + [quote]) + rest) ==
            Prepend(InsideValue(inside), Copy(expand, None, rest))
  {
    hide Prepend, InsideOk;
    var q, u := [quote], InsideText(inside);
    assert (q + rest)[1..] == rest && (q + (u + (q + rest)))[1..] == u + (q + rest);
    CopyInside(expand, quote, inside, q + rest);
    QuotedApart(quote, u, rest);
    assert Copy(expand, None, q + (u + (q + rest))) == Copy(expand, Some(quote), u + (q + rest));
    assert Copy(expand, Some(quote), q + rest) == Copy(expand, None, rest);
  }

  /** Pieces are read one after the other, and what follows them is read on. */
  lemma {:induction false} CopyPieces(expand: Expand, ps: seq<Piece>, rest: string)
    requires PiecesOk(ps)
    ensures Copy(expand, None, Text(ps) + rest) == Prepend(Value(ps), Copy(expand, None, rest))
    decreases |ps|
  {
    hide Copy, PieceOk, PieceText, PieceValue, Prepend;
    var r := Copy(expand, None, rest);
    if ps == [] {
      assert "" + rest == rest;
      PrependTwice("", "", r);
    } else {
      CopyPieces(expand, ps[1..], rest);
      CopyPiece(expand, ps[0], Text(ps[1..]) + rest);
      Associative(PieceText(ps[0]), Text(ps[1..]), rest);
      PrependTwice(PieceValue(ps[0]), Value(ps[1..]), r);
    }
  }

  // A text ends after a piece, in a lone backslash, which is dropped, or inside a quotation, which is closed.
  datatype End = Over | Backslash | Open(quote: char, inside: seq<Inner>, backslash: bool)

  predicate EndOk(end: End) {
    end.Open? ==> end.quote in "\"'`" && InsideOk(end.quote, end.inside)
  }

  function EndText(end: End): string {
    match end
    case Over => ""
    case Backslash => "\\"
    case Open(quote, inside, backslash) => [quote] + (InsideText(inside) + if backslash then "\\" else "")
  }

  function EndValue(end: End): string {
    if end.Open? then InsideValue(end.inside) else ""
  }

  lemma CopyEnd(expand: Expand, end: End)
    requires EndOk(end)
    ensures Copy(expand, None, EndText(end)) == Some(EndValue(end))
  {
    if end.Open? {
      hide InsideOk;
      var last := if end.backslash then "\\" else "";
      var s := EndText(end);
      assert s[1..] == InsideText(end.inside) + last && IsQuote(end.quote);
      CopyInside(expand, end.quote, end.inside, last);
      assert Copy(expand, Some(end.quote), last) == Some("");
      assert InsideValue(end.inside) + "" == InsideValue(end.inside);
    }
  }

  /** Every value without a variable is made of pieces and an end, and is read as what they stand for. */
  lemma ValueReads(expand: Expand, ps: seq<Piece>, end: End)
    requires PiecesOk(ps) && EndOk(end)
    ensures Copy(expand, None, Text(ps) + EndText(end)) == Some(Value(ps) + EndValue(end))
  {
    CopyPieces(expand, ps, EndText(end));
    CopyEnd(expand, end);
  }

  /** A variable stands for what it is expanded to, and what follows it is read on; if that fails, nothing is read. */
  lemma VariableReads(expand: Expand, ps: seq<Piece>, t: string)
    requires PiecesOk(ps)
    ensures expand(t).None? ==> Copy(expand, None, Text(ps) + ("$" + t)) == None
    ensures expand(t).Some? && expand(t).value.1 <= |t| ==>
              Copy(expand, None, Text(ps) + ("$" + t)) ==
              Prepend(Value(ps) + expand(t).value.0, Copy(expand, None, t[expand(t).value.1..]))
  {
    CopyPieces(expand, ps, "$" + t);
    var s := "$" + t;
    assert s[1..] == t;
    if expand(t).Some? && expand(t).value.1 <= |t| {
      var (v, n) := expand(t).value;
      assert s[1 + n..] == t[n..];
      PrependTwice(Value(ps), v, Copy(expand, None, t[n..]));
    }
  }

  lemma {:induction false} InsideOf(quote: char, s: string) returns (inside: seq<Inner>, rest: string)
    requires quote != '\\'
    ensures InsideOk(quote, inside) && s == InsideText(inside) + rest
    ensures rest == "" || rest == "\\" || rest[0] == quote
    decreases |s|
  {
    if s == "" || s == "\\" || s[0] == quote {
      inside, rest := [], s;
      assert "" + s == s;
    } else {
      var i, j := if s[0] == '\\' then Behind(s[1]) else Lit(s[0]), if s[0] == '\\' then 2 else 1;
      var more, rest' := InsideOf(quote, s[j..]);
      inside, rest := [i] + more, rest';
      assert s == InnerText(i) + s[j..] && inside[1..] == more;
      Associative(InnerText(i), InsideText(more), rest);
    }
  }

  lemma {:induction false} PiecesOf(s: string) returns (ps: seq<Piece>, end: End)
    requires '$' !in s
    ensures PiecesOk(ps) && EndOk(end) && s == Text(ps) + EndText(end)
    decreases |s|, 1
  {
    if s == "" {
      ps, end := [], Over;
    } else if s == "\\" {
      ps, end := [], Backslash;
    } else if s[0] in "\"'`" {
      var inside, rest := InsideOf(s[0], s[1..]);
      hide InsideOk;
      assert s == [s[0]] + s[1..];
      if rest != "" && rest[0] == s[0] {
        var p := Quoted(s[0], inside);
        assert rest == [s[0]] + rest[1..];
        QuotedApart(s[0], InsideText(inside), rest[1..]);
        ps, end := PieceFirst(p, s, rest[1..]);
      } else {
        ps, end := [], Open(s[0], inside, rest == "\\");
        assert "" + EndText(end) == s;
      }
    } else if s[0] == '\\' {
      assert s == ['\\', s[1]] + s[2..];
      ps, end := PieceFirst(Escape(s[1]), s, s[2..]);
    } else {
      assert s == [s[0]] + s[1..];
      ps, end := PieceFirst(Plain(s[0]), s, s[1..]);
    }
  }

  lemma QuotedApart(quote: char, inside: string, rest: string)
    ensures [quote] + (inside + ([quote] + rest)) == [quote] + (inside + [quote]) + rest
  {
  }

  lemma {:induction false} PieceFirst(p: Piece, s: string, rest: string) returns (ps: seq<Piece>, end: End)
    requires PieceOk(p) && s == PieceText(p) + rest && '$' !in s
    ensures PiecesOk(ps) && EndOk(end) && s == Text(ps) + EndText(end)
    decreases |s|, 0
  {
    hide PieceOk, EndOk, EndText;
    assert '$' !in rest by { assert forall i :: 0 <= i < |rest| ==> rest[i] == s[|PieceText(p)| + i]; }
    var more, end' := PiecesOf(rest);
    ps, end := [p] + more, end';
    assert ps[1..] == more;
    Associative(PieceText(p), Text(more), EndText(end));
  }

  // -------------------------------------------------------------------------
  // Comments.

  // No piece is a bare number sign.
  predicate NoSign(ps: seq<Piece>) {
    forall i :: 0 <= i < |ps| ==> ps[i] != Plain('#')
  }

  lemma {:induction false} UncommentedInside(quote: char, inside: seq<Inner>, rest: string)
    requires InsideOk(quote, inside) && quote != '\\'
    ensures Uncommented(Some(quote), InsideText(inside) + rest) == InsideText(inside) + Uncommented(Some(quote), rest)
    decreases |inside|
  {
    if inside == [] {
      assert "" + rest == rest && "" + Uncommented(Some(quote), rest) == Uncommented(Some(quote), rest);
    } else {
      var t, more := InnerText(inside[0]), InsideText(inside[1..]);
      UncommentedInside(quote, inside[1..], rest);
      UncommentedInner(quote, inside[0], more + rest);
      hide Uncommented, InnerText;
      Associative(t, more, rest);
      Associative(t, more, Uncommented(Some(quote), rest));
    }
  }

  lemma UncommentedInner(quote: char, i: Inner, rest: string)
    requires InnerOk(quote, i) && quote != '\\'
    ensures Uncommented(Some(quote), InnerText(i) + rest) == InnerText(i) + Uncommented(Some(quote), rest)
  {
    var s := InnerText(i) + rest;
    if i.Lit? { assert s[1..] == rest; } else { assert s[2..] == rest && s[..2] == InnerText(i); }
  }

  lemma UncommentedPiece(p: Piece, rest: string)
    requires PieceOk(p) && p != Plain('#')
    ensures Uncommented(None, PieceText(p) + rest) == PieceText(p) + Uncommented(None, rest)
  {
    var s := PieceText(p) + rest;
    if p.Quoted? {
      UncommentedQuoted(p.quote, p.inside, rest);
    } else if p.Plain? {
      assert s[1..] == rest;
    } else {
      assert s[2..] == rest && s[..2] == PieceText(p);
    }
  }

  lemma UncommentedQuoted(quote: char, inside: seq<Inner>, rest: string)
    requires PieceOk(Quoted(quote, inside))
    ensures var t := [quote] + (InsideText(inside) + [quote]);
            Uncommented(None, t + rest) == t + Uncommented(None, rest)
  {
    var q, u := [quote], InsideText(inside);
    UncommentedInside(quote, inside, q + rest);
    assert (q + rest)[1..] == rest && (q + (u + (q + rest)))[1..] == u + (q + rest);
    assert Uncommented(Some(quote), q + rest) == q + Uncommented(None, rest);
    assert Uncommented(None, q + (u + (q + rest))) == q + Uncommented(Some(quote), u + (q + rest));
    hide *;
    QuotedApart(quote, u, rest);
    QuotedApart(quote, u, Uncommented(None, rest));
  }

  lemma {:induction false} UncommentedPieces(ps: seq<Piece>, rest: string)
    requires PiecesOk(ps) && NoSign(ps)
    ensures Uncommented(None, Text(ps) + rest) == Text(ps) + Uncommented(None, rest)
    decreases |ps|
  {
    hide Uncommented, PieceOk, PieceText;
    if ps == [] {
      assert "" + rest == rest && "" + Uncommented(None, rest) == Uncommented(None, rest);
    } else {
      UncommentedPieces(ps[1..], rest);
      UncommentedPiece(ps[0], Text(ps[1..]) + rest);
      Associative(PieceText(ps[0]), Text(ps[1..]), rest);
      Associative(PieceText(ps[0]), Text(ps[1..]), Uncommented(None, rest));
    }
  }

  /** A number sign that is neither quoted nor behind a backslash starts a comment, which is dropped. */
  lemma CommentDropped(ps: seq<Piece>, comment: string)
    requires PiecesOk(ps) && NoSign(ps)
    ensures Uncommented(None, Text(ps)) == Text(ps)
    ensures Uncommented(None, Text(ps) + ("#" + comment)) == Text(ps)
  {
    UncommentedPieces(ps, "");
    UncommentedPieces(ps, "#" + comment);
    assert Text(ps) + "" == Text(ps);
  }

  // -------------------------------------------------------------------------
  // Lines with blanks around their parts.

  predicate Blanks(s: string) {
    forall i :: 0 <= i < |s| ==> s[i] in " \t\r\n"
  }

  lemma {:induction false} BlanksEaten(b: string, s: string)
    requires Blanks(b) && (s != "" ==> !IsWs(s[0]))
    ensures EatWs(b + s) == s
  {
    if b == "" {
      assert b + s == s;
    } else {
      assert (b + s)[1..] == b[1..] + s && (b + s)[0] == b[0];
      BlanksEaten(b[1..], s);
    }
  }

  lemma {:induction false} BlanksTrimmed(s: string, b: string)
    requires Blanks(b) && (s != "" ==> !IsWs(s[|s| - 1]))
    ensures TrimWs(s + b) == s
  {
    var t := s + b;
    if b == "" {
      assert t == s;
    } else {
      var n := |b| - 1;
      assert t[..|t| - 1] == s + b[..n] && t[|t| - 1] == b[n];
      BlanksTrimmed(s, b[..n]);
    }
  }

  // A character after which a name is over.
  predicate EndsName(c: char) {
    !IsAlnumPunct(c) && c != '\\'
  }

  /** Of the printable ASCII characters, these cannot stand in a name. */
  lemma NameCharacters(c: char)
    requires '!' <= c <= '~'
    ensures IsAlnumPunct(c) <==> c !in "\"#$'():<=>[\\]`{}"
  {
  }

  lemma {:induction false} NameEaten(n: string, rest: string)
    requires Named(n) && (rest != "" ==> EndsName(rest[0]))
    ensures EatName(n + rest) == |n|
    decreases |n|
  {
    var s := n + rest;
    if n == "" {
      assert s == rest;
    } else if n[0] == '\\' {
      assert s[2..] == n[2..] + rest;
      NameEaten(n[2..], rest);
    } else {
      assert s[1..] == n[1..] + rest;
      NameEaten(n[1..], rest);
    }
  }

  lemma NotDirective(n: string, rest: string, word: string)
    requires rest != "" && rest[0] !in word && !HasPrefix(n, word)
    ensures !HasPrefix(n + rest, word)
  {
    var s := n + rest;
    if |word| > |n| {
      assert s[|n|] == rest[0];
    } else {
      assert s[..|word|] == n[..|word|];
    }
  }

  // The name, blanks, the equal sign, blanks, the value and blanks.
  function EntryText(name: string, b1: string, b2: string, value: string, b3: string): string {
    name + (b1 + ("=" + (b2 + (value + b3))))
  }

  lemma EntryReads(expand: Expand, section: Option<string>, name: string, b1: string, b2: string, value: string,
                   b3: string)
    requires NameOk(name) && Blanks(b1) && Blanks(b2) && Blanks(b3)
    requires value != "" ==> !IsWs(value[0]) && !IsWs(value[|value| - 1])
    ensures var v := Copy(expand, None, value);
            ReadEntry(expand, section, EntryText(name, b1, b2, value, b3)) ==
            if v.None? then Bad else Assign(section, Entry(name, v.value))
  {
    hide Copy, ReadEntry, EatName, EatWs, TrimWs, HasPrefix, Named, IsAlnumPunct, EntryText;
    var after := "=" + (b2 + (value + b3));
    EntrySlices(name, b1, b2, value, b3);
    var s, rest := EntryText(name, b1, b2, value, b3), b1 + after;
    NameEaten(name, rest);
    BlanksEaten(b1, after);
    NotDirective(name, rest, ".pragma");
    NotDirective(name, rest, ".include");
    StartsSo("=", b2 + (value + b3));
    ValueTrimmed(b2, value, b3);
    ReadEntryAt(expand, section, s, |name|, after);
  }

  lemma EntrySlices(name: string, b1: string, b2: string, value: string, b3: string)
    requires Blanks(b1)
    ensures var after := "=" + (b2 + (value + b3));
            var s, rest := EntryText(name, b1, b2, value, b3), b1 + after;
            && s == name + rest && s[|name|..] == rest && s[..|name|] == name
            && after[1..] == b2 + (value + b3) && !IsWs(after[0])
            && EndsName(rest[0]) && rest[0] != ':' && rest[0] !in ".pragma" && rest[0] !in ".include"
  {
    var rest := b1 + ("=" + (b2 + (value + b3)));
    assert rest[0] == if b1 == "" then '=' else b1[0];
    EqualEnds(b1, rest[0]);
  }

  lemma ReadEntryAt(expand: Expand, section: Option<string>, s: string, k: nat, p: string)
    requires EatName(s) == k && EatWs(s[k..]) == p && HasPrefix(p, "=") && |p| > 0
    requires !HasPrefix(s, ".pragma") && !HasPrefix(s, ".include")
    ensures var v := Copy(expand, None, TrimWs(EatWs(p[1..])));
            ReadEntry(expand, section, s) == if v.None? then Bad else Assign(section, Entry(s[..k], v.value))
  {
    hide Copy, EatName, EatWs, TrimWs, HasPrefix;
  }

  lemma EqualEnds(b: string, c: char)
    requires Blanks(b) && (b == "" ==> c == '=') && (b != "" ==> c == b[0])
    ensures EndsName(c) && c != ':' && c !in ".pragma" && c !in ".include"
  {
  }

  lemma StartsSo(word: string, rest: string)
    ensures HasPrefix(word + rest, word)
  {
    assert (word + rest)[..|word|] == word;
  }

  lemma ValueTrimmed(b2: string, value: string, b3: string)
    requires Blanks(b2) && Blanks(b3) && (value != "" ==> !IsWs(value[0]) && !IsWs(value[|value| - 1]))
    ensures TrimWs(EatWs(b2 + (value + b3))) == value
  {
    if value == "" {
      assert "" + b3 == b3 && b3 + "" == b3 && b2 + b3 + "" == b2 + b3;
      assert Blanks(b2 + b3);
      BlanksEaten(b2 + b3, "");
    } else {
      BlanksEaten(b2, value + b3);
      BlanksTrimmed(value, b3);
    }
  }

  // What stays in a line that is cleared of comments, whatever follows.
  ghost predicate Stays(s: string) {
    forall rest :: Uncommented(None, s + rest) == s + Uncommented(None, rest)
  }

  lemma StaysAppend(a: string, b: string)
    requires Stays(a) && Stays(b)
    ensures Stays(a + b)
  {
    hide Uncommented;
    forall rest ensures Uncommented(None, a + b + rest) == a + b + Uncommented(None, rest) {
      assert a + b + rest == a + (b + rest);
      assert a + b + Uncommented(None, rest) == a + (b + Uncommented(None, rest));
    }
  }

  lemma {:induction false} BlanksStay(b: string)
    requires Blanks(b)
    ensures Stays(b)
  {
    if b == "" {
      assert forall rest :: "" + rest == rest;
    } else {
      BlanksStay(b[1..]);
      SignStays(b[0]);
      assert b == [b[0]] + b[1..];
      StaysAppend([b[0]], b[1..]);
    }
  }

  lemma SignStays(c: char)
    requires c in " \t\r\n=:"
    ensures Stays([c])
  {
    forall rest ensures Uncommented(None, [c] + rest) == [c] + Uncommented(None, rest) { UncommentedChar(c, rest); }
  }

  lemma NameStays(n: string)
    requires Named(n)
    ensures Stays(n)
  {
    forall rest ensures Uncommented(None, n + rest) == n + Uncommented(None, rest) { UncommentedName(n, rest); }
  }

  lemma PiecesStay(ps: seq<Piece>)
    requires PiecesOk(ps) && NoSign(ps)
    ensures Stays(Text(ps))
  {
    forall rest ensures Uncommented(None, Text(ps) + rest) == Text(ps) + Uncommented(None, rest) {
      UncommentedPieces(ps, rest);
    }
  }

  lemma EntryStays(name: string, b1: string, b2: string, ps: seq<Piece>, b3: string)
    requires Named(name) && Blanks(b1) && Blanks(b2) && Blanks(b3) && PiecesOk(ps) && NoSign(ps)
    ensures Stays(EntryText(name, b1, b2, Text(ps), b3))
  {
    hide Stays, Named, Blanks, PiecesOk, NoSign, Text;
    NameStays(name);
    BlanksStay(b1);
    SignStays('=');
    BlanksStay(b2);
    PiecesStay(ps);
    BlanksStay(b3);
    StaysAppend(Text(ps), b3);
    StaysAppend(b2, Text(ps) + b3);
    StaysAppend("=", b2 + (Text(ps) + b3));
    StaysAppend(b1, "=" + (b2 + (Text(ps) + b3)));
    StaysAppend(name, b1 + ("=" + (b2 + (Text(ps) + b3))));
  }

  // The name of another section, and two colons.
  function Prefix(section: Option<string>): string {
    if section.Some? then section.value + "::" else ""
  }

  lemma PrefixStays(section: Option<string>)
    requires section.Some? ==> Named(section.value)
    ensures Stays(Prefix(section))
  {
    hide Stays, Named;
    SignStays(':');
    StaysAppend(":", ":");
    assert ":" + ":" == "::";
    if section.Some? {
      NameStays(section.value);
      StaysAppend(section.value, "::");
    } else {
      BlanksStay("");
    }
  }

  lemma CommentCut(s: string, comment: Option<string>)
    requires Stays(s)
    ensures Uncommented(None, s + if comment.Some? then "#" + comment.value else "") == s
  {
    var rest := if comment.Some? then "#" + comment.value else "";
    assert Uncommented(None, rest) == "" && s + "" == s;
  }

  // Where the reader finds the name.
  lemma SectionFound(expand: Expand, line: string, section: Option<string>, name: string, after: string)
    requires EatWs(Uncommented(None, line)) == Prefix(section) + (name + after)
    requires Named(name) && name != "" && (section.Some? ==> Named(section.value))
    requires after != "" && EndsName(after[0]) && after[0] != ':'
    ensures ReadLine(expand, line) == ReadEntry(expand, section, name + after)
  {
    PrefixStarts(section, name, after);
    hide ReadEntry, Uncommented, EatName, EatWs, Named, HasPrefix, IsAlnumPunct;
    if section.Some? {
      PrefixEaten(section.value, name + after);
    } else {
      assert Prefix(section) + (name + after) == name + after;
      NoPrefix(name, after);
    }
  }

  lemma PrefixEaten(n: string, rest: string)
    requires Named(n)
    ensures var s := n + "::" + rest;
            && EatName(s) == |n| && s[..|n|] == n && |s| >= |n| + 2 && s[|n| + 2..] == rest && HasPrefix(s[|n|..], "::")
  {
    hide Named, IsAlnumPunct, EatName, HasPrefix, EndsName;
    var s, t := n + "::" + rest, "::" + rest;
    assert s == n + t && s[|n|..] == t;
    ColonEnds();
    NameEaten(n, t);
    StartsSo("::", rest);
  }

  lemma ColonEnds()
    ensures EndsName(':')
  {
  }

  lemma NoPrefix(n: string, rest: string)
    requires Named(n) && rest != "" && EndsName(rest[0]) && rest[0] != ':'
    ensures EatName(n + rest) == |n| && !HasPrefix((n + rest)[|n|..], "::")
  {
    NameEaten(n, rest);
    hide Named, EatName, EndsName;
    assert (n + rest)[|n|..] == rest;
    assert |rest| >= 2 ==> rest[..2][0] == rest[0];
  }

  lemma NamedStarts(n: string)
    requires Named(n) && n != ""
    ensures n[0] != '[' && !IsWs(n[0])
  {
  }

  /**
   * An entry, in whatever way it is written: blanks, the name of a section and two colons if the entry is for another
   * section than the current one, the entry and a comment.  The value is read piece by piece.
   */
  lemma EntryLineReads(expand: Expand, b0: string, section: Option<string>, name: string, b1: string, b2: string,
                       ps: seq<Piece>, b3: string, comment: Option<string>)
    requires Blanks(b0) && Blanks(b1) && Blanks(b2) && Blanks(b3)
    requires NameOk(name) && name != "" && (section.Some? ==> Named(section.value))
    requires PiecesOk(ps) && NoSign(ps)
    requires var value := Text(ps); value != "" ==> !IsWs(value[0]) && !IsWs(value[|value| - 1])
    ensures var line := b0 + (Prefix(section) + EntryText(name, b1, b2, Text(ps), b3));
            ReadLine(expand, line + if comment.Some? then "#" + comment.value else "") ==
            Assign(section, Entry(name, Value(ps)))
  {
    hide *;
    var entry, after := EntryText(name, b1, b2, Text(ps), b3), b1 + ("=" + (b2 + (Text(ps) + b3)));
    var line := b0 + (Prefix(section) + entry);
    EntrySlices(name, b1, b2, Text(ps), b3);
    PieceByPiece(expand, ps);
    assert Named(name) by { NameOkNamed(name); }
    PrefixStarts(section, name, after);
    LineStays(b0, section, name, b1, b2, ps, b3);
    CommentCut(line, comment);
    BlanksEaten(b0, Prefix(section) + entry);
    SectionFound(expand, line + if comment.Some? then "#" + comment.value else "", section, name, after);
    EntryReads(expand, section, name, b1, b2, Text(ps), b3);
  }

  lemma NameOkNamed(n: string)
    requires NameOk(n)
    ensures Named(n)
  {
  }

  lemma LineStays(b0: string, section: Option<string>, name: string, b1: string, b2: string, ps: seq<Piece>, b3: string)
    requires Named(name) && (section.Some? ==> Named(section.value)) && PiecesOk(ps) && NoSign(ps)
    requires Blanks(b0) && Blanks(b1) && Blanks(b2) && Blanks(b3)
    ensures Stays(b0 + (Prefix(section) + EntryText(name, b1, b2, Text(ps), b3)))
  {
    hide *;
    var entry := EntryText(name, b1, b2, Text(ps), b3);
    EntryStays(name, b1, b2, ps, b3);
    PrefixStays(section);
    StaysAppend(Prefix(section), entry);
    BlanksStay(b0);
    StaysAppend(b0, Prefix(section) + entry);
  }

  lemma PieceByPiece(expand: Expand, ps: seq<Piece>)
    requires PiecesOk(ps)
    ensures Copy(expand, None, Text(ps)) == Some(Value(ps))
  {
    CopyPieces(expand, ps, "");
    assert Text(ps) + "" == Text(ps) && Value(ps) + "" == Value(ps);
  }

  lemma PrefixStarts(section: Option<string>, name: string, after: string)
    requires Named(name) && name != "" && (section.Some? ==> Named(section.value))
    ensures var s := Prefix(section) + (name + after); s != "" && !IsWs(s[0]) && s[0] != '['
  {
    NamedStarts(name);
    if section.Some? && section.value != "" { NamedStarts(section.value); }
    var s := Prefix(section) + (name + after);
    assert s[0] == if section.None? then name[0] else if section.value == "" then ':' else section.value[0];
  }

  // -------------------------------------------------------------------------
  // Headers with blanks around the name, and lines that go on.

  // The words of a name, up to the blanks and the bracket.
  lemma {:induction false} WordsEaten(n: string, b: string, rest: string)
    requires ConfFile.Plain(n) && (n != "" ==> !IsWs(n[0]) && !IsWs(n[|n| - 1])) && Blanks(b)
    ensures EatWords(n + (b + ("]" + rest))) == Some(|n|)
    decreases |n|
  {
    hide IsWs, IsAlnumPunct, EatName, EatWs, EatWords, ConfFile.Plain, Blanks;
    var tail := b + ("]" + rest);
    var s := n + tail;
    TailStarts(b, rest);
    NameRun(n, tail);
    var k := EatName(s);
    if k == |n| {
      assert s[k..] == tail;
      BlanksEaten(b, "]" + rest);
      OneWord(s, k, "]" + rest);
    } else {
      var m := BlanksBetween(n, k, tail);
      var more := n[m..];
      OneWord(s, k, more + tail);
      WordsEaten(more, b, rest);
    }
  }

  lemma TailStarts(b: string, rest: string)
    requires Blanks(b)
    ensures var tail := b + ("]" + rest); tail != "" && (tail[0] == ']' || IsWs(tail[0])) && !IsWs(("]" + rest)[0])
  {
    var tail := b + ("]" + rest);
    assert tail[0] == if b == "" then ']' else b[0];
  }

  // Blanks after a word that is not the last one.
  lemma BlanksBetween(n: string, k: nat, tail: string) returns (m: nat)
    requires ConfFile.Plain(n) && k < |n| && IsWs(n[k]) && !IsWs(n[|n| - 1])
    ensures k < m < |n| && EatWs((n + tail)[k..]) == n[m..] + tail && ConfFile.Plain(n[m..])
    ensures !IsWs(n[m]) && n[m] != ']' && n[m..][|n[m..]| - 1] == n[|n| - 1]
  {
    hide ConfFile.Plain, IsWs, IsAlnumPunct, EatWs, Blanks;
    m := k;
    while IsWs(n[m])
      invariant k <= m < |n|
      invariant forall i :: k <= i < m ==> IsWs(n[i])
      decreases |n| - m
    {
      m := m + 1;
    }
    PlainFrom(n, m);
    WsAreBlanks(n[k..m]);
    assert (n + tail)[k..] == n[k..m] + (n[m..] + tail) && (n[m..] + tail)[0] == n[m];
    BlanksEaten(n[k..m], n[m..] + tail);
  }

  lemma PlainFrom(n: string, m: nat)
    requires ConfFile.Plain(n) && m < |n|
    ensures ConfFile.Plain(n[m..]) && n[m] != ']'
  {
    PlainChar(n[m]);
  }

  lemma WsAreBlanks(b: string)
    requires forall i :: 0 <= i < |b| ==> IsWs(b[i])
    ensures Blanks(b)
  {
  }

  lemma PlainStays(n: string)
    requires ConfFile.Plain(n)
    ensures Stays(n)
  {
    forall rest ensures Uncommented(None, n + rest) == n + Uncommented(None, rest) { UncommentedPlain(n, rest); }
  }

  lemma BracketStays(c: char)
    requires c == '[' || c == ']'
    ensures Stays([c])
  {
    forall rest ensures Uncommented(None, [c] + rest) == [c] + Uncommented(None, rest) { UncommentedChar(c, rest); }
  }

  /** A header, with blanks around its name, and with anything after the bracket. */
  lemma HeaderLineReads(expand: Expand, b0: string, b1: string, n: string, b2: string, rest: string)
    requires Blanks(b0) && Blanks(b1) && Blanks(b2) && GoodName(n) && n != ""
    ensures ReadLine(expand, b0 + ("[" + (b1 + (n + (b2 + ("]" + rest)))))) == Section(n)
  {
    var line, u := b0 + ("[" + (b1 + (n + (b2 + ("]" + rest))))), Uncommented(None, rest);
    var name := n + (b2 + ("]" + u));
    HeaderCleared(b0, b1, n, b2, rest);
    assert name[0] == n[0] && name[..|n|] == n && !IsWs('[');
    assert ("[" + (b1 + name))[0] == '[' && ("[" + (b1 + name))[1..] == b1 + name;
    CopyPlain(expand, n);
    hide *;
    BlanksEaten(b0, "[" + (b1 + name));
    BlanksEaten(b1, name);
    WordsEaten(n, b2, u);
    HeaderAt(expand, line, b1 + name, name, n);
  }

  lemma HeaderAt(expand: Expand, line: string, after: string, name: string, n: string)
    requires EatWs(Uncommented(None, line)) == "[" + after && EatWs(after) == name
    requires n <= name && EatWords(name) == Some(|n|) && Copy(expand, None, n) == Some(n)
    ensures ReadLine(expand, line) == Section(n)
  {
    hide Uncommented, Copy, EatWords, EatName, EatWs, ReadEntry;
    assert ("[" + after)[1..] == after && ("[" + after)[0] == '[' && name[..|n|] == n;
  }

  lemma HeaderCleared(b0: string, b1: string, n: string, b2: string, rest: string)
    requires Blanks(b0) && Blanks(b1) && Blanks(b2) && ConfFile.Plain(n)
    ensures Uncommented(None, b0 + ("[" + (b1 + (n + (b2 + ("]" + rest)))))) ==
            b0 + ("[" + (b1 + (n + (b2 + ("]" + Uncommented(None, rest))))))
  {
    hide Uncommented, Blanks, ConfFile.Plain;
    BlanksStay(b0);
    BracketStays('[');
    BlanksStay(b1);
    PlainStays(n);
    BlanksStay(b2);
    BracketStays(']');
    assert "[" == ['['] && "]" == [']'];
  }

  /** A backslash at the end of a line joins it to the next. */
  lemma LinesJoin(a: string, b: string, rest: string)
    requires '\n' !in a && '\n' !in b && (a != "" ==> a[|a| - 1] != '\\') && TrimEol(b) == b && !Continues(a + b)
    ensures Lines(None, a + "\\" + "\n" + (b + "\n" + rest)) == [a + b] + Lines(None, rest)
  {
    var line := a + "\\";
    assert TrimEol(line) == line && Continues(line) && line[..|line| - 1] == a && "" + line == line;
    hide TrimEol, Continues, Lines, Find;
    OneLine(None, line, b + "\n" + rest);
    OneLine(Some(a), b, rest);
  }

  /** A carriage return at the end of a line is dropped. */
  lemma ReturnDropped(a: string, rest: string)
    requires '\n' !in a && TrimEol(a) == a && !Continues(a)
    ensures Lines(None, a + "\r" + "\n" + rest) == [a] + Lines(None, rest)
  {
    hide TrimEol, Continues, Lines, Find;
    CarriageReturn(a);
    OneLine(None, a + "\r", rest);
    assert "" + a == a;
  }

  lemma CarriageReturn(a: string)
    requires TrimEol(a) == a
    ensures TrimEol(a + "\r") == a
  {
    assert (a + "\r")[..|a|] == a;
  }

  lemma OneLine(pending: Option<string>, line: string, rest: string)
    requires '\n' !in line
    ensures var buf := (if pending.Some? then pending.value else "") + TrimEol(line);
            Lines(pending, line + "\n" + rest) ==
            if Continues(buf) then Lines(Some(buf[..|buf| - 1]), rest) else [buf] + Lines(None, rest)
  {
    FindAfter(line, '\n', rest);
    hide Find, TrimEol, Continues, Lines, AfterLine;
    var text := line + "\n" + rest;
    assert text == line + ['\n'] + rest && text[..|line|] == line && text[|line| + 1..] == rest;
    LinesUnfold(pending, text, |line|, rest);
    AfterLineIs(OrEmpty(pending) + TrimEol(line), rest);
  }

  // -------------------------------------------------------------------------
  // What a line does to the configuration.

  /** A value that is given again replaces the old one and moves to the end of its section. */
  lemma {:induction false} GivenAgain(a: seq<Entry>, old': Entry, b: seq<Entry>, e: Entry)
    requires old'.name == e.name && Lacks(a, e.name) && Lacks(b, e.name)
    ensures Added(a + [old'] + b, e) == a + b + [e]
    decreases |a|
  {
    if a == [] {
      assert ([old'] + b)[1..] == b && a + [old'] + b == [old'] + b && a + b == b;
    } else {
      var rest := a[1..] + [old'] + b;
      GivenAgain(a[1..], old', b, e);
      assert (a + [old'] + b)[1..] == rest && (a + [old'] + b)[0] == a[0];
      assert Without(rest, e.name) == a[1..] + b by { SameBefore(Without(rest, e.name), a[1..] + b, e); }
      assert [a[0]] + (a[1..] + b) == a + b;
    }
  }

  lemma SameBefore(a: seq<Entry>, b: seq<Entry>, e: Entry)
    requires a + [e] == b + [e]
    ensures a == b
  {
    assert (a + [e])[..|a|] == a && (b + [e])[..|b|] == b && |a + [e]| == |b + [e]|;
  }

  /** An entry goes to the section it names or the current one, which is made if need be; no other section changes. */
  lemma EntryGoesTo(st: State, section: Option<string>, e: Entry)
    ensures var s := if section.Some? then section.value else st.current;
            var before := if s in st.conf then st.conf[s] else [];
            var next := Take(st, Assign(section, e));
            && next.Some? && next.value.current == st.current && next.value.conf.Keys == st.conf.Keys + {s}
            && (forall t :: t in st.conf && t != s ==> next.value.conf[t] == st.conf[t])
            && (Lacks(before, e.name) ==> next.value.conf[s] == before + [e])
  {
    hide Lacks;
  }

  /** A header makes its section the current one; entries that it has already stay. */
  lemma HeaderOpens(st: State, name: string)
    ensures var next := Take(st, Section(name));
            && next.Some? && next.value.current == name && next.value.conf.Keys == st.conf.Keys + {name}
            && (forall t :: t in st.conf ==> next.value.conf[t] == st.conf[t])
            && (name !in st.conf ==> next.value.conf[name] == [])
  {
  }

  // -------------------------------------------------------------------------
  // The canonical form: no more is escaped than has to be.

  predicate Ordinary(c: char) {
    c !in "\"'#\\$\n\r\t" && c != 8 as char
  }

  /** A value of ordinary characters, with no blank at its ends, is printed as it is. */
  lemma {:induction false} OrdinaryPrinted(first: bool, v: string)
    requires forall i :: 0 <= i < |v| ==> Ordinary(v[i])
    requires v != "" ==> (first ==> v[0] != ' ') && v[|v| - 1] != ' '
    ensures Escaped(first, v) == v
    decreases |v|
  {
    if v != "" {
      OrdinaryPrinted(false, v[1..]);
      assert Ordinary(v[0]);
      assert Shown(first, |v| == 1, v[0]) == [v[0]];
      assert v == [v[0]] + v[1..];
    }
  }

  /** Any other character is printed behind a backslash; a blank at an end is printed between quotation marks. */
  lemma OthersPrinted(first: bool, rest: string)
    ensures Escaped(first, "\n" + rest) == "\\n" + Escaped(false, rest)
    ensures Escaped(first, "\r" + rest) == "\\r" + Escaped(false, rest)
    ensures Escaped(first, "\t" + rest) == "\\t" + Escaped(false, rest)
    ensures Escaped(first, [8 as char] + rest) == "\\b" + Escaped(false, rest)
    ensures Escaped(first, "\\" + rest) == "\\\\" + Escaped(false, rest)
    ensures Escaped(first, "\"" + rest) == "\\\"" + Escaped(false, rest)
    ensures Escaped(first, "'" + rest) == "\\'" + Escaped(false, rest)
    ensures Escaped(first, "#" + rest) == "\\#" + Escaped(false, rest)
    ensures Escaped(first, "$" + rest) == "\\$" + Escaped(false, rest)
    ensures first || rest == "" ==> Escaped(first, " " + rest) == "\" \"" + Escaped(false, rest)
  {
    hide Escaped, Shown;
    ShownOthers(first, rest == "");
    FirstPrinted(first, '\n', rest);
    FirstPrinted(first, '\r', rest);
    FirstPrinted(first, '\t', rest);
    FirstPrinted(first, 8 as char, rest);
    FirstPrinted(first, '\\', rest);
    FirstPrinted(first, '\"', rest);
    FirstPrinted(first, '\'', rest);
    FirstPrinted(first, '#', rest);
    FirstPrinted(first, '$', rest);
    FirstPrinted(first, ' ', rest);
  }

  lemma ShownOthers(first: bool, last: bool)
    ensures Shown(first, last, '\n') == "\\n" && Shown(first, last, '\r') == "\\r"
    ensures Shown(first, last, '\t') == "\\t" && Shown(first, last, 8 as char) == "\\b"
    ensures Shown(first, last, '\\') == "\\\\" && Shown(first, last, '\"') == "\\\""
    ensures Shown(first, last, '\'') == "\\'" && Shown(first, last, '#') == "\\#"
    ensures Shown(first, last, '$') == "\\$" && (first || last ==> Shown(first, last, ' ') == "\" \"")
  {
  }

  lemma FirstPrinted(first: bool, c: char, rest: string)
    ensures Escaped(first, [c] + rest) == Shown(first, rest == "", c) + Escaped(false, rest)
  {
    hide Shown;
    assert ([c] + rest)[1..] == rest;
  }
}
