// The -geninfo argument of the cmp command: a comma-separated list of object identifiers with an integer or a string.
module GenInfo {
  import opened Prelude

  datatype Value = Int(n: int) | Str(s: string)

  datatype Item = Item(oid: string, value: Value)

  // What is left of the argument after an item.
  datatype Step = Step(item: Item, rest: string)

  // The items handed over before the end or the first error.
  datatype Parsed = Parsed(ok: bool, items: seq<Item>)

  // The range of the type long, where it has 64 bits.
  const LONG_MAX := 0x7fff_ffff_ffff_ffff
  const LONG_MIN := -0x8000_0000_0000_0000

  // -------------------------------------------------------------------------
  // strtol(), base ten.

  function SkipSpace(s: string): (r: string)
    ensures |r| <= |s| && (r != "" ==> !IsSpace(r[0]))
  {
    if s != "" && IsSpace(s[0]) then SkipSpace(s[1..]) else s
  }

  function Digits(s: string): (k: nat)
    ensures k <= |s| && (forall i :: 0 <= i < k ==> IsDigit(s[i])) && (k < |s| ==> !IsDigit(s[k]))
  {
    if s != "" && IsDigit(s[0]) then 1 + Digits(s[1..]) else 0
  }

  function Number(ds: string): int {
    if ds == "" then 0 else 10 * Number(ds[..|ds| - 1]) + (ds[|ds| - 1] as int - '0' as int)
  }

  function Clamp(n: int): int {
    if n < LONG_MIN then LONG_MIN else if n > LONG_MAX then LONG_MAX else n
  }

  // What is read after the blanks.
  function SignedRead(t: string): (r: Option<(int, string)>)
    ensures r.Some? ==> LONG_MIN <= r.value.0 <= LONG_MAX && |r.value.1| < |t|
  {
    var signed := t != "" && (t[0] == '-' || t[0] == '+');
    var u := if signed then t[1..] else t;
    var k := Digits(u);
    if k == 0 then None else Some((Clamp(if signed && t[0] == '-' then -Number(u[..k]) else Number(u[..k])), u[k..]))
  }

  function Strtol(s: string): (r: Option<(int, string)>)
    ensures r.Some? ==> LONG_MIN <= r.value.0 <= LONG_MAX && |r.value.1| < |s|
  {
    SignedRead(SkipSpace(s))
  }

  // -------------------------------------------------------------------------
  // The parser.

  predicate HasCasePrefix(s: string, p: string) {
    |p| <= |s| && forall i :: 0 <= i < |p| ==> Lower(s[i]) == Lower(p[i])
  }

  function ParseValue(s: string): (r: Option<(Value, string)>)
    ensures r.Some? ==> |r.value.1| < |s|
  {
    if HasCasePrefix(s, "int:") then
      var n := Strtol(s[4..]);
      if n.None? then None
      else if n.value.1 == "" then Some((Int(n.value.0), ""))
      else if n.value.1[0] == ',' then Some((Int(n.value.0), n.value.1[1..]))
      else None
    else if HasCasePrefix(s, "str:") then
      var t := s[4..];
      var e := Find(t, ',');
      Some((Str(t[..e]), if e < |t| then t[e + 1..] else ""))
    else None
  }

  function ParseItem(valid: string -> bool, s: string): (r: Option<Step>)
    ensures r.Some? ==> |r.value.rest| < |s|
  {
    var t := SkipSpace(s);
    var c := Find(t, ':');
    if c == |t| || !valid(t[..c]) then None
    else
      var v := ParseValue(t[c + 1..]);
      if v.None? then None else Some(Step(Item(t[..c], v.value.0), v.value.1))
  }

  function Parse(valid: string -> bool, s: string): Parsed
    decreases |s|
  {
    var r := ParseItem(valid, s);
    if r.None? then Parsed(false, [])
    else if r.value.rest == "" then Parsed(true, [r.value.item])
    else
      var p := Parse(valid, r.value.rest);
      Parsed(p.ok, [r.value.item] + p.items)
  }

  // The loop of handle_opt_geninfo.  A pointer is the string that it points at, so ptr + 1 is ptr[1..].
  method HandleGeninfo(valid: string -> bool, arg: string) returns (ok: bool, items: seq<Item>)
    ensures Parsed(ok, items) == Parse(valid, arg)
  {
    hide ParseItem;
    ok, items := false, [];
    var ptr := arg;
    while true
      invariant var p := Parse(valid, ptr); Parse(valid, arg) == Parsed(p.ok, items + p.items)
      decreases |ptr|
    {
      var fine, item, next := HandleItem(valid, ptr);
      if !fine { return; }
      ptr := next;
      items := items + [item];
      if ptr == "" { break; }
    }
    ok := true;
  }

  method HandleItem(valid: string -> bool, arg: string) returns (ok: bool, item: Item, ptr: string)
    ensures ok <==> ParseItem(valid, arg).Some?
    ensures ok ==> ParseItem(valid, arg) == Some(Step(item, ptr))
  {
    hide ParseValue, Find;
    ok, item, ptr := false, Item("", Str("")), arg;
    while ptr != "" && IsSpace(ptr[0])
      invariant SkipSpace(arg) == SkipSpace(ptr)
      decreases |ptr|
    {
      ptr := ptr[1..];
    }
    var colon := Find(ptr, ':');
    if colon == |ptr| { return; }
    var oid := ptr[..colon];
    ptr := ptr[colon + 1..];
    if !valid(oid) { return; }
    var value;
    ok, value, ptr := HandleValue(ptr);
    item := Item(oid, value);
  }

  method HandleValue(arg: string) returns (ok: bool, value: Value, ptr: string)
    ensures ok <==> ParseValue(arg).Some?
    ensures ok ==> ParseValue(arg) == Some((value, ptr))
  {
    hide Strtol, Find;
    ok, value, ptr := false, Str(""), arg;
    if HasCasePrefix(ptr, "int:") {
      ptr := ptr[4..];
      var n := Strtol(ptr);
      if n.None? { return; }
      ptr := n.value.1;
      if ptr != "" {
        if ptr[0] != ',' { return; }
        ptr := ptr[1..];
      }
      value := Int(n.value.0);
    } else if HasCasePrefix(ptr, "str:") {
      ptr := ptr[4..];
      var end := Find(ptr, ',');
      value := Str(ptr[..end]);
      ptr := if end == |ptr| then "" else ptr[end + 1..];
    } else {
      return;
    }
    ok := true;
  }

  // -------------------------------------------------------------------------
  // What comes out, and the documented text form.

  predicate Good(valid: string -> bool, item: Item) {
    && ':' !in item.oid && (item.oid != "" ==> !IsSpace(item.oid[0])) && valid(item.oid)
    && match item.value
       case Int(n) => LONG_MIN <= n <= LONG_MAX
       case Str(s) => ',' !in s
  }

  ghost predicate AllGood(valid: string -> bool, items: seq<Item>) {
    forall i :: 0 <= i < |items| ==> Good(valid, items[i])
  }

  // Decimal digits of a number.
  function Dec(n: nat): (r: string)
    ensures r != "" && forall i :: 0 <= i < |r| ==> IsDigit(r[i])
  {
    (if n < 10 then "" else Dec(n / 10)) + [(n % 10 + '0' as int) as char]
  }

  function ValueText(v: Value): string {
    match v
    case Int(n) => "int:" + IntText(n)
    case Str(s) => "str:" + s
  }

  function ItemText(item: Item): string {
    item.oid + ":" + ValueText(item.value)
  }

  // The items separated by commas, each after some blanks.
  function Text(items: seq<Item>, blanks: seq<string>): string
    requires |items| == |blanks|
  {
    if items == [] then ""
    else blanks[0] + ItemText(items[0]) + if |items| == 1 then "" else "," + Text(items[1..], blanks[1..])
  }

  predicate Blank(s: string) {
    forall i :: 0 <= i < |s| ==> IsSpace(s[i])
  }

  lemma {:induction false} SkipBlanks(b: string, s: string)
    requires Blank(b) && (s != "" ==> !IsSpace(s[0]))
    ensures SkipSpace(b + s) == s
  {
    if b == "" {
      assert b + s == s;
    } else {
      assert (b + s)[1..] == b[1..] + s;
      SkipBlanks(b[1..], s);
    }
  }

  lemma {:induction false} DigitsOf(ds: string, rest: string)
    requires (forall i :: 0 <= i < |ds| ==> IsDigit(ds[i])) && (rest != "" ==> !IsDigit(rest[0]))
    ensures Digits(ds + rest) == |ds|
  {
    if ds == "" {
      assert ds + rest == rest;
    } else {
      assert (ds + rest)[1..] == ds[1..] + rest;
      DigitsOf(ds[1..], rest);
    }
  }

  lemma {:induction false} DecNumber(n: nat)
    ensures Number(Dec(n)) == n
  {
    var r := Dec(n);
    if n >= 10 {
      DecNumber(n / 10);
      assert r[..|r| - 1] == Dec(n / 10);
    }
  }

  lemma StrtolPlain(ds: string, rest: string)
    requires ds != "" && IsDigit(ds[0]) && Digits(ds + rest) == |ds|
    ensures Strtol(ds + rest) == Some((Clamp(Number(ds)), rest))
  {
    hide Digits, Number, Clamp;
    assert (ds + rest)[0] == ds[0] && !IsSpace(ds[0]);
    assert SkipSpace(ds + rest) == ds + rest;
    hide SkipSpace;
    assert (ds + rest)[..|ds|] == ds && (ds + rest)[|ds|..] == rest;
  }

  lemma StrtolMinus(ds: string, rest: string)
    requires ds != "" && Digits(ds + rest) == |ds|
    ensures Strtol("-" + ds + rest) == Some((Clamp(-Number(ds)), rest))
  {
    hide Digits, Number, Clamp;
    var s := "-" + ds + rest;
    assert s[0] == '-';
    assert SkipSpace(s) == s;
    hide SkipSpace;
    assert s[1..] == ds + rest;
    assert (ds + rest)[..|ds|] == ds && (ds + rest)[|ds|..] == rest;
  }

  function IntText(n: int): (r: string)
    ensures r != "" && !IsSpace(r[0])
  {
    if n < 0 then "-" + Dec(-n) else Dec(n)
  }

  // A plus sign before a number changes nothing.
  lemma PlusIsIgnored(s: string)
    requires s != "" && IsDigit(s[0])
    ensures Strtol("+" + s) == Strtol(s) && Strtol(s).Some?
  {
    var t := "+" + s;
    assert t[1..] == s;
    assert SkipSpace(t) == t && SkipSpace(s) == s && Digits(s) > 0;
  }

  // A number that does not fit is read as the nearest one that does.
  lemma StrtolUndoes(n: int, rest: string)
    requires rest != "" ==> !IsDigit(rest[0])
    ensures -9223372036854775808 <= n <= 9223372036854775807 ==> Strtol(IntText(n) + rest) == Some((n, rest))
    ensures n > 9223372036854775807 ==> Strtol(IntText(n) + rest) == Some((9223372036854775807, rest))
    ensures n < -9223372036854775808 ==> Strtol(IntText(n) + rest) == Some((-9223372036854775808, rest))
  {
    hide Strtol, Dec, Digits, Number;
    var m: nat := if n < 0 then -n else n;
    DecNumber(m);
    DigitsOf(Dec(m), rest);
    if n < 0 { StrtolMinus(Dec(m), rest); } else { StrtolPlain(Dec(m), rest); }
  }

  lemma ParseIntFrom(t: string)
    requires Strtol(t).Some? && (Strtol(t).value.1 == "" || Strtol(t).value.1[0] == ',')
    ensures var n := Strtol(t).value; ParseValue("int:" + t) == Some((Int(n.0), if n.1 == "" then "" else n.1[1..]))
  {
    hide Strtol, Find;
    var s := "int:" + t;
    assert s[4..] == t;
    assert HasCasePrefix(s, "int:");
  }

  // The parser takes exactly one value back off its text.
  lemma ParseIntUndoes(n: int, rest: string)
    requires LONG_MIN <= n <= LONG_MAX
    ensures ParseValue(ValueText(Int(n))) == Some((Int(n), ""))
    ensures ParseValue(ValueText(Int(n)) + "," + rest) == Some((Int(n), rest))
  {
    hide Strtol, IntText, Find, ParseValue;
    var t, u := IntText(n), "," + rest;
    StrtolUndoes(n, "");
    assert t + "" == t;
    ParseIntFrom(t);
    StrtolUndoes(n, u);
    ParseIntFrom(t + u);
    assert u[1..] == rest;
    assert "int:" + (t + u) == ValueText(Int(n)) + "," + rest;
  }

  lemma ParseStrUndoes(s: string, rest: string)
    requires ',' !in s
    ensures ParseValue(ValueText(Str(s))) == Some((Str(s), ""))
    ensures ParseValue(ValueText(Str(s)) + "," + rest) == Some((Str(s), rest))
  {
    FindNone(s, ',');
    FindAfter(s, ',', rest);
    hide Strtol, Find;
    var v, t := ValueText(Str(s)), s + [','] + rest;
    assert v[4..] == s && (v + "," + rest)[4..] == t && s[..|s|] == s && t[..|s|] == s && t[|s| + 1..] == rest;
    assert v[0] == 's' && (v + "," + rest)[0] == 's';
  }

  lemma ParseValueUndoes(v: Value, rest: string)
    requires match v case Int(n) => LONG_MIN <= n <= LONG_MAX case Str(s) => ',' !in s
    ensures ParseValue(ValueText(v)) == Some((v, ""))
    ensures ParseValue(ValueText(v) + "," + rest) == Some((v, rest))
  {
    hide ParseValue, ValueText;
    match v {
      case Int(n) => ParseIntUndoes(n, rest);
      case Str(s) => ParseStrUndoes(s, rest);
    }
  }

  lemma ParseItemUndoes(valid: string -> bool, item: Item, blank: string, rest: string)
    requires Good(valid, item) && Blank(blank)
    ensures ParseItem(valid, blank + ItemText(item)) == Some(Step(item, ""))
    ensures ParseItem(valid, blank + ItemText(item) + "," + rest) == Some(Step(item, rest))
  {
    hide ParseValue, Find, SkipSpace, ValueText;
    ParseValueUndoes(item.value, rest);
    var v := ValueText(item.value);
    ItemParts(valid, item, blank, v);
    ItemParts(valid, item, blank, v + "," + rest);
    assert blank + (item.oid + [':'] + v) == blank + ItemText(item);
    assert blank + (item.oid + [':'] + (v + "," + rest)) == blank + ItemText(item) + "," + rest;
  }

  lemma ItemParts(valid: string -> bool, item: Item, blank: string, v: string)
    requires Good(valid, item) && Blank(blank)
    ensures var t := item.oid + [':'] + v;
            && SkipSpace(blank + t) == t && Find(t, ':') == |item.oid|
            && t[..|item.oid|] == item.oid && t[|item.oid| + 1..] == v
  {
    SkipBlanks(blank, item.oid + [':'] + v);
    FindAfter(item.oid, ':', v);
  }

  lemma {:induction false} ParseUndoes(valid: string -> bool, items: seq<Item>, blanks: seq<string>)
    requires |items| == |blanks| && items != []
    requires AllGood(valid, items) && forall i :: 0 <= i < |blanks| ==> Blank(blanks[i])
    ensures Parse(valid, Text(items, blanks)) == Parsed(true, items)
    ensures Parse(valid, Text(items, blanks) + ",") == Parsed(true, items)
  {
    hide ParseItem, ItemText, Good, Blank;
    var head := blanks[0] + ItemText(items[0]);
    if |items| == 1 {
      ParseItemUndoes(valid, items[0], blanks[0], "");
      assert head + "" == head && head + "," + "" == head + ",";
    } else {
      var tail := Text(items[1..], blanks[1..]);
      ParseUndoes(valid, items[1..], blanks[1..]);
      ParseItemUndoes(valid, items[0], blanks[0], tail);
      ParseItemUndoes(valid, items[0], blanks[0], tail + ",");
      assert head + ("," + tail) == head + "," + tail;
      assert head + ("," + tail) + "," == head + "," + (tail + ",");
      assert tail != "";
    }
  }

  lemma ParseItemGood(valid: string -> bool, s: string)
    ensures ParseItem(valid, s).Some? ==> Good(valid, ParseItem(valid, s).value.item)
  {
    hide Strtol, SkipSpace, Find;
  }

  lemma {:induction false} ParseGood(valid: string -> bool, s: string)
    ensures AllGood(valid, Parse(valid, s).items)
    decreases |s|
  {
    hide ParseItem, Good;
    ParseItemGood(valid, s);
    var r := ParseItem(valid, s);
    if r.Some? && r.value.rest != "" {
      ParseGood(valid, r.value.rest);
    }
  }

  // -------------------------------------------------------------------------
  // Every text that is read as an item, in whatever way it is written.

  // An item and the places of its parts: blanks, the identifier, the name of the type in any case, the text of the
  // value, and what is left after a comma, if there is one.
  datatype Form = Form(blank: string, oid: string, prefix: string, body: string, comma: bool, rest: string)
  {
    function Text(): string { blank + (oid + ":" + (prefix + (body + if comma then "," + rest else ""))) }
  }

  // Blanks, a sign and digits.
  ghost predicate IsNumber(body: string, n: int) {
    exists blank, sign, digits :: Blank(blank) && IsSigned(sign, digits, n) && body == blank + (sign + digits)
  }

  predicate IsSigned(sign: string, digits: string, n: int) {
    && (sign == "" || sign == "+" || sign == "-") && digits != ""
    && (forall i :: 0 <= i < |digits| ==> IsDigit(digits[i]))
    && n == Clamp(if sign == "-" then -Number(digits) else Number(digits))
  }

  ghost predicate Reads(valid: string -> bool, f: Form, step: Step) {
    && Blank(f.blank) && ':' !in f.oid && (f.oid != "" ==> !IsSpace(f.oid[0])) && valid(f.oid)
    && step.item.oid == f.oid && step.rest == f.rest && (!f.comma ==> f.rest == "")
    && ReadsValue(f.prefix, f.body, step.item.value)
  }

  predicate InAnyCase(s: string, lower: string, upper: string)
    requires |lower| == |upper|
  {
    |s| == |lower| && forall i :: 0 <= i < |s| ==> s[i] == lower[i] || s[i] == upper[i]
  }

  lemma AnyCasePrefix(s: string)
    requires |s| == 4
    ensures HasCasePrefix(s, "int:") <==> InAnyCase(s, "int:", "INT:")
    ensures HasCasePrefix(s, "str:") <==> InAnyCase(s, "str:", "STR:")
  {
  }

  ghost predicate ReadsValue(prefix: string, body: string, v: Value) {
    match v
    case Int(n) => InAnyCase(prefix, "int:", "INT:") && IsNumber(body, n)
    case Str(s) => InAnyCase(prefix, "str:", "STR:") && body == s && ',' !in s
  }

  lemma {:induction false} SkipIsBlank(s: string) returns (blank: string)
    ensures Blank(blank) && s == blank + SkipSpace(s)
  {
    if s != "" && IsSpace(s[0]) {
      var b := SkipIsBlank(s[1..]);
      blank := [s[0]] + b;
      assert s == [s[0]] + s[1..] == blank + SkipSpace(s);
    } else {
      blank := "";
    }
  }

  // What is read as a number has the form of one.
  lemma StrtolForm(s: string) returns (body: string)
    requires Strtol(s).Some?
    ensures s == body + Strtol(s).value.1 && IsNumber(body, Strtol(s).value.0)
  {
    var blank := SkipIsBlank(s);
    hide SkipSpace, IsSigned, SignedRead, Blank;
    var (n, rest) := Strtol(s).value;
    var sign, digits := SignedForm(SkipSpace(s), n, rest);
    body := blank + (sign + digits);
    assert s == body + rest;
  }

  lemma SignedForm(t: string, n: int, rest: string) returns (sign: string, digits: string)
    requires SignedRead(t) == Some((n, rest))
    ensures IsSigned(sign, digits, n) && t == sign + digits + rest
  {
    hide Number, Clamp, Digits, IsDigit;
    var signed := t[0] == '-' || t[0] == '+';
    var u := if signed then t[1..] else t;
    DigitsForm(u);
    digits := u[..Digits(u)];
    sign := if t[0] == '-' then "-" else if t[0] == '+' then "+" else "";
    if signed { assert t == [t[0]] + u; }
    SignApart(sign, digits, rest);
  }

  lemma DigitsForm(u: string)
    ensures var ds := u[..Digits(u)];
            u == ds + u[Digits(u)..] && forall i :: 0 <= i < |ds| ==> IsDigit(ds[i])
  {
  }

  lemma SignApart(sign: string, digits: string, rest: string)
    ensures sign + digits + rest == sign + (digits + rest)
  {
  }

  lemma SignedOfForm(sign: string, digits: string, n: int, rest: string)
    requires IsSigned(sign, digits, n) && (rest != "" ==> !IsDigit(rest[0]))
    ensures SignedRead(sign + digits + rest) == Some((n, rest))
    ensures !IsSpace((sign + digits + rest)[0])
  {
    var u, t := digits + rest, sign + digits + rest;
    DigitsOf(digits, rest);
    assert IsDigit(digits[0]) && u[0] == digits[0];
    assert u[0] != '-' && u[0] != '+' && !IsSpace(u[0]);
    SignApart(sign, digits, rest);
    hide Digits, Number, Clamp, IsDigit;
    assert u[..|digits|] == digits && u[|digits|..] == rest;
    if sign == "" {
      assert t == u;
    } else {
      assert t == [sign[0]] + u && t[1..] == u;
    }
  }

  lemma StrtolOfForm(body: string, n: int, rest: string)
    requires IsNumber(body, n) && (rest != "" ==> !IsDigit(rest[0]))
    ensures Strtol(body + rest) == Some((n, rest))
  {
    hide IsSigned, SignedRead, Blank, SkipSpace;
    var blank, sign, digits :| Blank(blank) && IsSigned(sign, digits, n) && body == blank + (sign + digits);
    var t := sign + digits + rest;
    SignedOfForm(sign, digits, n, rest);
    SkipBlanks(blank, t);
    assert body + rest == blank + t;
  }

  lemma ValueForm(s: string) returns (prefix: string, body: string, comma: bool)
    requires ParseValue(s).Some?
    ensures var (v, rest) := ParseValue(s).value;
            && s == prefix + (body + if comma then "," + rest else "") && (!comma ==> rest == "")
            && ReadsValue(prefix, body, v)
  {
    hide Strtol, IsNumber, InAnyCase, Find;
    prefix := s[..4];
    var t := s[4..];
    assert s == prefix + t;
    AnyCasePrefix(prefix);
    if HasCasePrefix(s, "int:") {
      body, comma := IntForm(t);
    } else {
      body, comma := StrForm(t);
    }
  }

  lemma IntForm(t: string) returns (body: string, comma: bool)
    requires Strtol(t).Some? && (Strtol(t).value.1 != "" ==> Strtol(t).value.1[0] == ',')
    ensures var (n, end) := Strtol(t).value;
            && IsNumber(body, n) && (comma <==> end != "") && t == body + if comma then "," + end[1..] else ""
  {
    body := StrtolForm(t);
    hide Strtol, IsNumber;
    var end := Strtol(t).value.1;
    comma := end != "";
    assert comma ==> end == "," + end[1..];
  }

  lemma StrForm(t: string) returns (body: string, comma: bool)
    ensures var e := Find(t, ',');
            && body == t[..e] && ',' !in body && (comma <==> e < |t|)
            && t == body + if comma then "," + t[e + 1..] else ""
  {
    var e := Find(t, ',');
    hide Find;
    body, comma := t[..e], e < |t|;
  }

  lemma ValueOfForm(prefix: string, body: string, comma: bool, rest: string, v: Value)
    requires ReadsValue(prefix, body, v) && (!comma ==> rest == "")
    ensures ParseValue(prefix + (body + if comma then "," + rest else "")) == Some((v, rest))
  {
    AnyCasePrefix(prefix);
    hide ParseValue, HasCasePrefix, IsNumber;
    if v.Int? { IntOfForm(prefix, body, comma, rest, v.n); } else { StrOfForm(prefix, body, comma, rest); }
  }

  lemma IntOfForm(prefix: string, body: string, comma: bool, rest: string, n: int)
    requires |prefix| == 4 && HasCasePrefix(prefix, "int:") && IsNumber(body, n) && (!comma ==> rest == "")
    ensures ParseValue(prefix + (body + if comma then "," + rest else "")) == Some((Int(n), rest))
  {
    hide Strtol, IsNumber, Find;
    var end := if comma then "," + rest else "";
    var s := prefix + (body + end);
    StrtolOfForm(body, n, end);
    assert s[4..] == body + end && forall i :: 0 <= i < 4 ==> s[i] == prefix[i];
    assert comma ==> end[1..] == rest;
  }

  lemma StrOfForm(prefix: string, body: string, comma: bool, rest: string)
    requires |prefix| == 4 && HasCasePrefix(prefix, "str:") && ',' !in body && (!comma ==> rest == "")
    ensures ParseValue(prefix + (body + if comma then "," + rest else "")) == Some((Str(body), rest))
  {
    hide Strtol, Find;
    var end := if comma then "," + rest else "";
    var s, t := prefix + (body + end), body + end;
    FindNone(body, ',');
    if comma { FindAfter(body, ',', rest); }
    assert t == if comma then body + [','] + rest else body;
    assert s[4..] == t && forall i :: 0 <= i < 4 ==> s[i] == prefix[i];
    assert Lower(s[0]) == 's' != Lower("int:"[0]);
    assert t[..|body|] == body && (comma ==> t[|body| + 1..] == rest);
  }

  ghost predicate ReadsOid(valid: string -> bool, s: string, blank: string, oid: string, v: string) {
    && s == blank + (oid + ":" + v)
    && Blank(blank) && ':' !in oid && (oid != "" ==> !IsSpace(oid[0])) && valid(oid)
  }

  lemma OidForm(valid: string -> bool, s: string) returns (blank: string, oid: string, v: string)
    requires ParseItem(valid, s).Some?
    ensures ReadsOid(valid, s, blank, oid, v)
    ensures var step, r := ParseItem(valid, s).value, ParseValue(v);
            r.Some? && step.item == Item(oid, r.value.0) && step.rest == r.value.1
  {
    blank := SkipIsBlank(s);
    var t := SkipSpace(s);
    hide SkipSpace, ParseValue, Blank;
    var c := Find(t, ':');
    oid, v := t[..c], t[c + 1..];
    hide Find;
    assert t == oid + ":" + v;
  }

  lemma ItemForm(valid: string -> bool, s: string) returns (f: Form)
    requires ParseItem(valid, s).Some?
    ensures s == f.Text() && Reads(valid, f, ParseItem(valid, s).value)
  {
    hide ParseItem, ParseValue, ReadsValue, Blank;
    var blank, oid, v := OidForm(valid, s);
    var prefix, body, comma := ValueForm(v);
    f := Form(blank, oid, prefix, body, comma, ParseValue(v).value.1);
  }

  lemma ItemOfForm(valid: string -> bool, f: Form, step: Step)
    requires Reads(valid, f, step)
    ensures ParseItem(valid, f.Text()) == Some(step)
  {
    var v := f.prefix + (f.body + if f.comma then "," + f.rest else "");
    var t := f.oid + ":" + v;
    SkipBlanks(f.blank, t);
    FindAfter(f.oid, ':', v);
    hide SkipSpace, Find, ParseValue, ReadsValue;
    ValueOfForm(f.prefix, f.body, f.comma, f.rest, step.item.value);
    assert t[..|f.oid|] == f.oid && t[|f.oid| + 1..] == v && t == f.oid + [':'] + v;
  }

  /** A text is read as an item exactly if it has the form of that item, and what is left of it is what follows. */
  lemma ItemIffForm(valid: string -> bool, s: string, step: Step)
    ensures ParseItem(valid, s) == Some(step) <==> exists f: Form :: s == f.Text() && Reads(valid, f, step)
  {
    if ParseItem(valid, s) == Some(step) { var f := ItemForm(valid, s); }
    hide ParseItem, Reads, Form.Text;
    forall f: Form | s == f.Text() && Reads(valid, f, step) ensures ParseItem(valid, s) == Some(step) {
      ItemOfForm(valid, f, step);
    }
  }

  lemma ParseFirst(valid: string -> bool, item: Item, blank: string, rest: string)
    requires Good(valid, item) && Blank(blank) && rest != ""
    ensures var p := Parse(valid, rest);
            Parse(valid, blank + ItemText(item) + "," + rest) == Parsed(p.ok, [item] + p.items)
  {
    hide ParseItem, ItemText, Good, Blank;
    ParseItemUndoes(valid, item, blank, rest);
  }

  /** What follows a list is read on; the items before an error are handed over. */
  lemma {:induction false} ParseGoesOn(valid: string -> bool, items: seq<Item>, blanks: seq<string>, rest: string)
    requires |items| == |blanks| && items != [] && rest != ""
    requires AllGood(valid, items) && forall i :: 0 <= i < |blanks| ==> Blank(blanks[i])
    ensures var p := Parse(valid, rest);
            Parse(valid, Text(items, blanks) + "," + rest) == Parsed(p.ok, items + p.items)
  {
    hide Parse, ItemText, Good, Blank;
    var head, p := blanks[0] + ItemText(items[0]), Parse(valid, rest);
    if |items| == 1 {
      ParseFirst(valid, items[0], blanks[0], rest);
      assert Text(items, blanks) == head + "" == head && items == [items[0]];
    } else {
      var more := Text(items[1..], blanks[1..]);
      var tail := more + "," + rest;
      ParseGoesOn(valid, items[1..], blanks[1..], rest);
      ParseFirst(valid, items[0], blanks[0], tail);
      assert Text(items, blanks) == head + ("," + more);
      hide Text;
      assert head + ("," + more) + "," + rest == head + "," + tail;
      assert [items[0]] + (items[1..] + p.items) == items + p.items;
    }
  }

  /** An error that comes after some items. */
  lemma ErrorAfterItems(valid: string -> bool, items: seq<Item>, blanks: seq<string>, rest: string)
    requires |items| == |blanks| && items != [] && rest != "" && ParseItem(valid, rest).None?
    requires AllGood(valid, items) && forall i :: 0 <= i < |blanks| ==> Blank(blanks[i])
    ensures Parse(valid, Text(items, blanks) + "," + rest) == Parsed(false, items)
  {
    hide ParseItem, Text, Good, Blank;
    ParseGoesOn(valid, items, blanks, rest);
  }

  /** The documented text of a list is read back as that list exactly if every item of it can be written that way. */
  lemma ParseUndoesIffGood(valid: string -> bool, items: seq<Item>, blanks: seq<string>)
    requires |items| == |blanks| && items != [] && forall i :: 0 <= i < |blanks| ==> Blank(blanks[i])
    ensures Parse(valid, Text(items, blanks)) == Parsed(true, items) <==> AllGood(valid, items)
  {
    hide Parse, Good, Blank, Text;
    ParseGood(valid, Text(items, blanks));
    if AllGood(valid, items) { ParseUndoes(valid, items, blanks); }
  }
}
