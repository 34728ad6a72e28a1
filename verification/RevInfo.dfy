// The revocation field of a database row: make_revocation_str and unpack_revinfo of apps/ca.c.
module RevInfo {
  import opened Prelude
  import opened Time

  // What the library decides about texts: object identifiers, GeneralizedTimes, and the
  // moment of an ASN.1 time.
  datatype Env = Env(oid: string -> bool, gentime: string -> bool, moment: string -> Option<int>)

  datatype RevType = RevValid | RevNone | RevReason | RevHold | RevKeyTime | RevCaTime

  const REASONS: seq<string> := [
    "unspecified", "keyCompromise", "CACompromise", "affiliationChanged", "superseded",
    "cessationOfOperation", "certificateHold", "removeFromCRL",
    "holdInstruction", "keyTime", "CAkeyTime"
  ]

  const NO_STATUS: int := -1
  const KEY_COMPROMISE: int := 1
  const CA_COMPROMISE: int := 2
  const CERTIFICATE_HOLD: int := 6
  const REMOVE_FROM_CRL: int := 8

  // -------------------------------------------------------------------------
  // OPENSSL_strcasecmp

  predicate SameText(a: string, b: string)
  {
    |a| == |b| && forall i :: 0 <= i < |a| ==> Lower(a[i]) == Lower(b[i])
  }

  predicate CaseOf(upper: char, lower: char)
  {
    exists i :: 0 <= i < 26 && upper == "ABCDEFGHIJKLMNOPQRSTUVWXYZ"[i] && lower == "abcdefghijklmnopqrstuvwxyz"[i]
  }

  // Texts are the same if they differ only in the case of letters.
  lemma SameButForCase(a: string, b: string)
    ensures SameText(a, b) <==>
            |a| == |b| && forall i :: 0 <= i < |a| ==> a[i] == b[i] || CaseOf(a[i], b[i]) || CaseOf(b[i], a[i])
  {
    forall i | 0 <= i < |a| && i < |b|
      ensures Lower(a[i]) == Lower(b[i]) <==> a[i] == b[i] || CaseOf(a[i], b[i]) || CaseOf(b[i], a[i])
    {
      CasePairs(a[i], b[i]);
      CasePairs(b[i], a[i]);
    }
  }

  lemma CasePairs(c: char, d: char)
    ensures CaseOf(c, d) <==> 'A' <= c <= 'Z' && d == Lower(c)
  {
    var upper, lower := "ABCDEFGHIJKLMNOPQRSTUVWXYZ", "abcdefghijklmnopqrstuvwxyz";
    assert forall i :: 0 <= i < 26 ==> upper[i] == 'A' + i as char && lower[i] == 'a' + i as char;
    if 'A' <= c <= 'Z' && d == Lower(c) {
      var i := (c - 'A') as int;
      assert 0 <= i < 26 && c == upper[i] && d == lower[i];
    }
  }

  // The first of the first n reasons that a text names, or n.
  function ReasonIndex(s: string, n: nat): (i: nat)
    requires n <= |REASONS|
    ensures i <= n && (i < n ==> SameText(s, REASONS[i]))
    ensures forall j :: 0 <= j < i ==> !SameText(s, REASONS[j])
  {
    ReasonFrom(s, 0, n)
  }

  function ReasonFrom(s: string, k: nat, n: nat): (i: nat)
    requires k <= n <= |REASONS|
    ensures k <= i <= n && (i < n ==> SameText(s, REASONS[i]))
    ensures forall j :: k <= j < i ==> !SameText(s, REASONS[j])
    decreases n - k
  {
    if k == n || SameText(s, REASONS[k]) then k else ReasonFrom(s, k + 1, n)
  }

  // No two reasons differ only in case, and none has a comma.
  lemma ReasonsDiffer(i: nat, j: nat)
    requires i < |REASONS| && j < |REASONS| && SameText(REASONS[i], REASONS[j])
    ensures i == j
  {
    assert Lower(REASONS[i][0]) == Lower(REASONS[j][0]);
  }

  predicate IsLetter(c: char)
  {
    'A' <= c <= 'Z' || 'a' <= c <= 'z'
  }

  lemma ReasonsPlain(i: nat)
    requires i < |REASONS|
    ensures forall k :: 0 <= k < |REASONS[i]| ==> IsLetter(REASONS[i][k])
  {
    var s := REASONS[i];
    assert |s| <= 20;
    forall k | 0 <= k < |s| ensures IsLetter(s[k]) {
      assert 0 <= k < 20;
    }
  }

  lemma ReasonIndexOf(s: string, i: nat, n: nat)
    requires i < n <= |REASONS| && SameText(s, REASONS[i])
    ensures ReasonIndex(s, n) == i
  {
    var k := ReasonIndex(s, n);
    assert k < n;
    assert SameText(REASONS[i], REASONS[k]);
    ReasonsDiffer(i, k);
  }

  // -------------------------------------------------------------------------
  // make_revocation_str

  // The reason and the extra value that a revocation records, if its argument is accepted.
  function Parts(env: Env, t: RevType, arg: string): (r: Option<(Option<string>, Option<string>)>)
  {
    match t
    case RevValid => Some((None, None))
    case RevNone => Some((None, None))
    case RevReason =>
      var i := ReasonIndex(arg, 8);
      if i < 8 then Some((Some(REASONS[i]), None)) else None
    case RevHold => if env.oid(arg) then Some((Some("holdInstruction"), Some(arg))) else None
    case RevKeyTime => if env.gentime(arg) then Some((Some("keyTime"), Some(arg))) else None
    case RevCaTime => if env.gentime(arg) then Some((Some("CAkeyTime"), Some(arg))) else None
  }

  function Comma(s: Option<string>): string
  {
    if s.Some? then "," + s.value else ""
  }

  // The text: revocation time[,reason[,extra]].
  function MakeRevocation(env: Env, t: RevType, arg: string, now: Tm): (r: Option<string>)
    requires now.Valid()
  {
    match Parts(env, t, arg)
    case None => None
    case Some((reason, extra)) => Some(ClockText(now) + Comma(reason) + Comma(extra))
  }

  // -------------------------------------------------------------------------
  // unpack_revinfo.  On failure the time is still set, to an empty one if it is the time
  // that does not parse, and nothing else is.

  datatype Info = Info(time: string, reason: int, hold: Option<string>, compromised: Option<string>)

  // The text before its first comma, and the text after it.
  function Split(s: string): (r: (string, Option<string>))
  {
    var i := Find(s, ',');
    if i == |s| then (s, None) else (s[..i], Some(s[i + 1..]))
  }

  // The text cut at its first two commas.
  function Cut(s: string): (r: (string, Option<string>, Option<string>))
  {
    var (time, p) := Split(s);
    if p.None? then (time, None, None)
    else
      var (reason, arg) := Split(p.value);
      (time, Some(reason), arg)
  }

  function Unpack(env: Env, s: string): (r: (bool, Info))
  {
    var (time, reason, arg) := Cut(s);
    var failed := (false, Info(time, NO_STATUS, None, None));
    if !UtcTimeOk(time) then (false, Info("", NO_STATUS, None, None))
    else if reason.None? then (true, Info(time, NO_STATUS, None, None))
    else
      var i := ReasonIndex(reason.value, |REASONS|);
      if i == |REASONS| then failed
      else if i == 7 then (true, Info(time, REMOVE_FROM_CRL, None, None))
      else if i == 8 then
        if arg.Some? && env.oid(arg.value) then (true, Info(time, CERTIFICATE_HOLD, arg, None)) else failed
      else if i == 9 || i == 10 then
        if arg.Some? && env.gentime(arg.value)
        then (true, Info(time, if i == 9 then KEY_COMPROMISE else CA_COMPROMISE, None, arg)) else failed
      else (true, Info(time, i, None, None))
  }

  // What a revocation means: the code, hold instruction and compromise time to publish.
  function Meaning(env: Env, t: RevType, arg: string, now: Tm): (info: Info)
    requires now.Valid() && Parts(env, t, arg).Some?
  {
    var time := ClockText(now);
    match t
    case RevValid => Info(time, NO_STATUS, None, None)
    case RevNone => Info(time, NO_STATUS, None, None)
    case RevReason =>
      var i := ReasonIndex(arg, 8);
      Info(time, if i == 7 then REMOVE_FROM_CRL else i, None, None)
    case RevHold => Info(time, CERTIFICATE_HOLD, Some(arg), None)
    case RevKeyTime => Info(time, KEY_COMPROMISE, None, Some(arg))
    case RevCaTime => Info(time, CA_COMPROMISE, None, Some(arg))
  }

  lemma SplitJoined(a: string, b: Option<string>)
    requires ',' !in a
    ensures Split(a + Comma(b)) == (a, b)
  {
    if b.None? {
      assert a + Comma(b) == a;
      FindNone(a, ',');
    } else {
      var s := a + [','] + b.value;
      assert a + Comma(b) == s;
      FindAfter(a, ',', b.value);
      assert s[..|a|] == a && s[|a| + 1..] == b.value;
    }
  }

  // The cut recovers the parts, even if the extra value has commas.
  lemma CutJoined(time: string, reason: Option<string>, extra: Option<string>)
    requires ',' !in time && (reason.Some? ==> ',' !in reason.value) && (extra.Some? ==> reason.Some?)
    ensures Cut(time + Comma(reason) + Comma(extra)) == (time, reason, extra)
  {
    hide Split;
    if reason.None? {
      assert time + Comma(reason) + Comma(extra) == time + Comma(None);
      SplitJoined(time, None);
    } else {
      var p := reason.value + Comma(extra);
      assert time + Comma(reason) + Comma(extra) == time + Comma(Some(p));
      SplitJoined(time, Some(p));
      SplitJoined(reason.value, extra);
    }
  }

  lemma ReasonFound(i: nat)
    requires i < |REASONS|
    ensures ReasonIndex(REASONS[i], |REASONS|) == i && ',' !in REASONS[i]
  {
    ReasonsPlain(i);
    ReasonIndexOf(REASONS[i], i, |REASONS|);
  }

  // Unpacking undoes packing exactly for revocations in the years 1950 to 2049; a later
  // revocation is written with a four-digit year and cannot be read back.
  lemma UnpackUndoesMake(env: Env, t: RevType, arg: string, now: Tm)
    requires now.Valid() && MakeRevocation(env, t, arg, now).Some?
    ensures var s := MakeRevocation(env, t, arg, now).value;
            && (Unpack(env, s).0 <==> 1950 <= now.year < 2050)
            && (Unpack(env, s).0 ==> Unpack(env, s).1 == Meaning(env, t, arg, now))
  {
    hide ClockText, UtcTimeOk, ReasonIndex, Cut, SameText;
    var (reason, extra) := Parts(env, t, arg).value;
    ClockTextChars(now);
    ClockTextReadable(now);
    if reason.Some? {
      var i := if t.RevReason? then ReasonIndex(arg, 8) else if t.RevHold? then 8 else if t.RevKeyTime? then 9 else 10;
      ReasonFound(i);
    }
    CutJoined(ClockText(now), reason, extra);
  }

  // What can be unpacked at all: a code that section 5.3.1 of RFC 5280 defines, a hold
  // instruction only with a hold, a compromise time only with a compromise, never both.
  lemma UnpackShape(env: Env, s: string)
    ensures var (ok, info) := Unpack(env, s);
            && (info.reason == NO_STATUS || 0 <= info.reason <= 6 || info.reason == 8)
            && (info.hold.Some? ==> info.reason == CERTIFICATE_HOLD)
            && (info.compromised.Some? ==> info.reason == KEY_COMPROMISE || info.reason == CA_COMPROMISE)
            && !(info.hold.Some? && info.compromised.Some?)
            && (ok ==> UtcTimeOk(info.time))
  {
    hide UtcTimeOk, ReasonIndex, Cut;
  }

  // -------------------------------------------------------------------------
  // Every text that is unpacked, by the names and codes of section 5.3.1 of RFC 5280: compromises
  // and holds that carry a time or an instruction have the codes of those that do not.

  predicate IsCode(code: int, name: string)
  {
    || (code == 0 && SameText(name, "unspecified"))
    || (code == 1 && (SameText(name, "keyCompromise") || SameText(name, "keyTime")))
    || (code == 2 && (SameText(name, "CACompromise") || SameText(name, "CAkeyTime")))
    || (code == 3 && SameText(name, "affiliationChanged"))
    || (code == 4 && SameText(name, "superseded"))
    || (code == 5 && SameText(name, "cessationOfOperation"))
    || (code == 6 && (SameText(name, "certificateHold") || SameText(name, "holdInstruction")))
    || (code == 8 && SameText(name, "removeFromCRL"))
  }

  // What a text unpacks to if its reason has a name.
  predicate UnpacksTo(env: Env, time: string, name: string, extra: Option<string>, info: Info)
  {
    var hold := SameText(name, "holdInstruction");
    var compromise := SameText(name, "keyTime") || SameText(name, "CAkeyTime");
    && UtcTimeOk(time) && info.time == time && IsCode(info.reason, name)
    && (hold ==> extra.Some? && env.oid(extra.value))
    && (compromise ==> extra.Some? && env.gentime(extra.value))
    && info.hold == (if hold then extra else None)
    && info.compromised == (if compromise then extra else None)
  }

  lemma IndexOfName(s: string, i: nat)
    requires i < |REASONS|
    ensures SameText(s, REASONS[i]) <==> ReasonIndex(s, |REASONS|) == i
  {
    if SameText(s, REASONS[i]) { ReasonIndexOf(s, i, |REASONS|); }
  }

  lemma IndexOfNames(s: string)
    ensures var i := ReasonIndex(s, |REASONS|);
            && (SameText(s, "unspecified") <==> i == 0)
            && (SameText(s, "keyCompromise") <==> i == 1)
            && (SameText(s, "CACompromise") <==> i == 2)
            && (SameText(s, "affiliationChanged") <==> i == 3)
            && (SameText(s, "superseded") <==> i == 4)
            && (SameText(s, "cessationOfOperation") <==> i == 5)
            && (SameText(s, "certificateHold") <==> i == 6)
            && (SameText(s, "removeFromCRL") <==> i == 7)
            && (SameText(s, "holdInstruction") <==> i == 8)
            && (SameText(s, "keyTime") <==> i == 9)
            && (SameText(s, "CAkeyTime") <==> i == 10)
  {
    hide SameText, ReasonIndex;
    IndexOfName(s, 0);
    IndexOfName(s, 1);
    IndexOfName(s, 2);
    IndexOfName(s, 3);
    IndexOfName(s, 4);
    IndexOfName(s, 5);
    IndexOfName(s, 6);
    IndexOfName(s, 7);
    IndexOfName(s, 8);
    IndexOfName(s, 9);
    IndexOfName(s, 10);
  }

  // The exact texts that unpack, and what they unpack to.
  lemma UnpackMeans(env: Env, time: string, name: string, extra: Option<string>, info: Info)
    requires ',' !in time && ',' !in name
    ensures Unpack(env, time + Comma(Some(name)) + Comma(extra)) == (true, info) <==>
            UnpacksTo(env, time, name, extra, info)
    ensures Unpack(env, time) == (true, info) <==> UtcTimeOk(time) && info == Info(time, -1, None, None)
  {
    CutJoined(time, Some(name), extra);
    CutJoined(time, None, None);
    assert time + Comma(None) + Comma(None) == time;
    IndexOfNames(name);
    assert |REASONS| == 11;
    hide UtcTimeOk, ReasonIndex, Cut, SameText, Comma, REASONS;
  }

  // -------------------------------------------------------------------------
  // The buffer of make_revocation_str.

  ghost predicate HoldsText(buf: array<char>, s: string)
    reads buf
  {
    |s| < buf.Length && NUL !in s && buf[..|s|] == s && buf[|s|] == NUL
  }

  // OPENSSL_strlcpy to position `to`, within the buffer.
  method Strlcpy(buf: array<char>, to: nat, src: string, ghost before: string)
    requires to < buf.Length && NUL !in src && NUL !in before && |before| == to && buf[..to] == before
    modifies buf
    ensures HoldsText(buf, before + if to + |src| < buf.Length then src else src[..buf.Length - 1 - to])
  {
    var size, dst, l := buf.Length - to, to, 0;
    while size > 1 && l < |src|
      invariant 1 <= size && l <= |src| && dst == to + l && dst + size == buf.Length
      invariant buf[..dst] == before + src[..l]
      decreases size
    {
      buf[dst] := src[l];
      dst, l, size := dst + 1, l + 1, size - 1;
      assert src[..l] == src[..l - 1] + [src[l - 1]];
    }
    buf[dst] := NUL;
    assert src[..|src|] == src;
  }

  // OPENSSL_strlcat
  method Strlcat(buf: array<char>, src: string, ghost before: string)
    requires HoldsText(buf, before) && NUL !in src
    modifies buf
    ensures HoldsText(buf, before + if |before| + |src| < buf.Length then src else src[..buf.Length - 1 - |before|])
  {
    var dst := 0;
    forall k | 0 <= k < |before| ensures buf[k] != NUL { assert buf[k] == buf[..|before|][k]; }
    while dst < buf.Length && buf[dst] != NUL
      invariant dst <= |before|
    {
      dst := dst + 1;
    }
    Strlcpy(buf, dst, src, before);
  }

  // The search for a reason that the operator can name.
  method FindReason(arg: string) returns (reason: Option<string>)
    ensures reason == if ReasonIndex(arg, 8) < 8 then Some(REASONS[ReasonIndex(arg, 8)]) else None
  {
    assert |REASONS| == 11;
    hide REASONS, SameText;
    var i := 0;
    while i < 8
      invariant i <= 8 && forall j :: 0 <= j < i ==> !SameText(arg, REASONS[j])
    {
      if SameText(arg, REASONS[i]) {
        ReasonIndexOf(arg, i, 8);
        return Some(REASONS[i]);
      }
      i := i + 1;
    }
    reason := None;
  }

  // The switch on the revocation type.
  method PickParts(env: Env, t: RevType, arg: string) returns (r: Option<(Option<string>, Option<string>)>)
    ensures r == Parts(env, t, arg)
  {
    hide REASONS, ReasonIndex;
    var reason, other: Option<string> := None, None;
    match t {
      case RevValid =>
      case RevNone =>
      case RevReason =>
        reason := FindReason(arg);
        if reason.None? { return None; }
      case RevHold =>
        if !env.oid(arg) { return None; }
        reason, other := Some("holdInstruction"), Some(arg);
      case RevKeyTime =>
        if !env.gentime(arg) { return None; }
        reason, other := Some("keyTime"), Some(arg);
      case RevCaTime =>
        if !env.gentime(arg) { return None; }
        reason, other := Some("CAkeyTime"), Some(arg);
    }
    r := Some((reason, other));
  }

  lemma PartsNul(env: Env, t: RevType, arg: string)
    requires NUL !in arg && Parts(env, t, arg).Some?
    ensures var (reason, other) := Parts(env, t, arg).value;
            (reason.Some? ==> NUL !in reason.value) && (other.Some? ==> NUL !in other.value)
  {
    if t.RevReason? {
      ReasonNul(ReasonIndex(arg, 8));
    } else {
      ReasonNul(8);
      ReasonNul(9);
      ReasonNul(10);
    }
  }

  lemma ReasonNul(i: nat)
    requires i < |REASONS|
    ensures NUL !in REASONS[i]
  {
    ReasonsPlain(i);
    hide REASONS;
    assert forall k :: 0 <= k < |REASONS[i]| ==> IsLetter(REASONS[i][k]);
  }

  // The allocated length is exactly enough: nothing is cut off and no room is left.
  method MakeRevocationStr(env: Env, t: RevType, arg: string, now: Tm) returns (str: Option<string>)
    requires now.Valid() && NUL !in arg
    ensures str == MakeRevocation(env, t, arg, now)
  {
    hide Parts, ClockText;
    var parts := PickParts(env, t, arg);
    if parts.None? { return None; }
    PartsNul(env, t, arg);
    ClockTextChars(now);
    var buf := FillBuffer(ClockText(now), parts.value.0, parts.value.1);
    str := Some(buf[..buf.Length - 1]);
  }

  // The buffer holds the text and its final NUL, and nothing else.
  method FillBuffer(revtm: string, reason: Option<string>, other: Option<string>) returns (buf: array<char>)
    requires NUL !in revtm && (reason.Some? ==> NUL !in reason.value) && (other.Some? ==> NUL !in other.value)
    ensures HoldsText(buf, revtm + Comma(reason) + Comma(other))
    ensures buf.Length == |revtm + Comma(reason) + Comma(other)| + 1
  {
    var i := |revtm| + 1;
    if reason.Some? { i := i + |reason.value| + 1; }
    if other.Some? { i := i + |other.value| + 1; }
    buf := new char[i];
    Strlcpy(buf, 0, revtm, "");
    assert "" + revtm == revtm;
    AppendComma(buf, reason, revtm);
    AppendComma(buf, other, revtm + Comma(reason));
  }

  method AppendComma(buf: array<char>, s: Option<string>, ghost before: string)
    requires HoldsText(buf, before) && (s.Some? ==> NUL !in s.value) && |before| + |Comma(s)| < buf.Length
    modifies buf
    ensures HoldsText(buf, before + Comma(s))
  {
    if s.Some? {
      Strlcat(buf, ",", before);
      Strlcat(buf, s.value, before + ",");
      assert before + "," + s.value == before + Comma(s);
    } else {
      assert before + Comma(s) == before;
    }
  }

  // unpack_revinfo: the copy of the text is cut at two commas and the reason looked up.
  method UnpackRevinfo(env: Env, str: string) returns (ok: bool, info: Info)
    ensures (ok, info) == Unpack(env, str)
  {
    hide UtcTimeOk, SameText;
    var rtime, reason, arg: Option<string> := str, None, None;
    var p := Find(str, ',');
    if p < |str| {
      rtime := str[..p];
      var rest := str[p + 1..];
      p := Find(rest, ',');
      reason := Some(rest[..p]);
      if p < |rest| { arg := Some(rest[p + 1..]); } else { assert rest[..p] == rest; }
    }
    assert Cut(str) == (rtime, reason, arg);
    if !UtcTimeOk(rtime) { return false, Info("", NO_STATUS, None, None); }
    info := Info(rtime, NO_STATUS, None, None);
    if reason.None? { return true, info; }
    var i := 0;
    while i < |REASONS| && !SameText(reason.value, REASONS[i])
      invariant i <= |REASONS| && forall j :: 0 <= j < i ==> !SameText(reason.value, REASONS[j])
    {
      i := i + 1;
    }
    assert ReasonIndex(reason.value, |REASONS|) == i;
    if i == |REASONS| { return false, info; }
    if i == 7 {
      info := info.(reason := REMOVE_FROM_CRL);
    } else if i == 8 {
      if arg.None? || !env.oid(arg.value) { return false, info; }
      info := info.(reason := CERTIFICATE_HOLD, hold := arg);
    } else if i == 9 || i == 10 {
      if arg.None? || !env.gentime(arg.value) { return false, info; }
      info := info.(reason := if i == 9 then KEY_COMPROMISE else CA_COMPROMISE, compromised := arg);
    } else {
      info := info.(reason := i);
    }
    ok := true;
  }
}
