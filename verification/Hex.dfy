// Serial numbers as hexadecimal text: BN_bn2hex and BN_hex2bn of crypto/bn/bn_conv.c, and
// the comparison of serials in apps/lib/apps.c.
module Hex {
  import opened Prelude

  function DigitChar(d: nat): (c: char)
    requires d < 16
    ensures IsUpperHex(c) && DigitValue(c) == d
  {
    if d < 10 then '0' + d as char else 'A' + (d - 10) as char
  }

  predicate IsUpperHex(c: char)
  {
    IsDigit(c) || 'A' <= c <= 'F'
  }

  // isxdigit()
  predicate IsHex(c: char)
  {
    IsUpperHex(c) || 'a' <= c <= 'f'
  }

  function DigitValue(c: char): (d: nat)
    requires IsHex(c)
    ensures d < 16
    ensures IsUpperHex(c) ==> (d == 0 <==> c == '0')
  {
    if IsDigit(c) then (c - '0') as nat
    else if 'A' <= c <= 'F' then (c - 'A') as nat + 10
    else (c - 'a') as nat + 10
  }

  lemma DigitCharOfValue(c: char)
    requires IsUpperHex(c)
    ensures DigitChar(DigitValue(c)) == c
  {
  }

  predicate AllHex(s: string) { forall i :: 0 <= i < |s| ==> IsHex(s[i]) }
  predicate AllUpperHex(s: string) { forall i :: 0 <= i < |s| ==> IsUpperHex(s[i]) }

  // The bytes of a magnitude, most significant first, two digits each, without
  // leading zero bytes.
  function Bytes(n: nat): (s: string)
    ensures AllUpperHex(s) && |s| % 2 == 0 && (n > 0 ==> |s| >= 2)
  {
    if n == 0 then "" else Bytes(n / 256) + [DigitChar(n / 16 % 16), DigitChar(n % 16)]
  }

  // The text of a serial number in the index file: BN_bn2hex, except that zero is "00".
  function SerialText(n: int): (s: string)
  {
    if n == 0 then "00" else if n < 0 then "-" + Bytes(-n) else Bytes(n)
  }

  function Value(s: string): (n: nat)
    requires AllHex(s)
  {
    if s == "" then 0 else 16 * Value(s[..|s| - 1]) + DigitValue(s[|s| - 1])
  }

  // BN_hex2bn: an optional sign and the longest run of hexadecimal digits.
  function HexRun(s: string): (n: nat)
    ensures n <= |s| && AllHex(s[..n]) && (n < |s| ==> !IsHex(s[n]))
  {
    if s == "" || !IsHex(s[0]) then 0 else
      var n := 1 + HexRun(s[1..]);
      assert s[..n] == [s[0]] + s[1..][..n - 1];
      n
  }

  function HexToBn(s: string): (r: Option<int>)
  {
    if s == "" then None
    else
      var digits := if s[0] == '-' then s[1..] else s;
      var n := HexRun(digits);
      if n == 0 then None
      else Some(if s[0] == '-' then -(Value(digits[..n]) as int) else Value(digits[..n]))
  }

  // The check of ca_main on the serial of a row that was loaded.
  predicate SerialOk(s: string)
  {
    var digits := if s != "" && s[0] == '-' then s[1..] else s;
    |digits| % 2 == 0 && |digits| >= 2 && AllHex(digits)
  }

  // The texts it accepts: bytes of two digits, at least one, after an optional sign.
  lemma SerialOkByBytes(s: string, a: char, b: char)
    ensures |s| < 2 ==> !SerialOk(s)
    ensures SerialOk(s + [a, b]) <==>
            (s == "" || s == "-" || SerialOk(s)) && a in "0123456789ABCDEFabcdef" && b in "0123456789ABCDEFabcdef"
  {
    HexDigits(a);
    HexDigits(b);
    assert !IsHex('-');
    hide IsHex, AllHex;
    var digits, t := if s != "" && s[0] == '-' then s[1..] else s, s + [a, b];
    AllHexAppend(digits, a, b);
    if s != "" {
      assert (if t[0] == '-' then t[1..] else t) == digits + [a, b];
      AllHexAppend("", a, b);
    } else {
      assert t == [a, b] && "" + [a, b] == [a, b];
    }
  }

  lemma HexDigits(c: char)
    ensures IsHex(c) <==> c in "0123456789ABCDEFabcdef"
  {
  }

  lemma AllHexAppend(s: string, a: char, b: char)
    ensures AllHex(s + [a, b]) <==> AllHex(s) && IsHex(a) && IsHex(b)
  {
    var t := s + [a, b];
    assert t[|s|] == a && t[|s| + 1] == b;
    assert forall i :: 0 <= i < |s| ==> t[i] == s[i];
  }

  // What index_serial_hash and index_serial_cmp look at: the text after its leading zeros.
  function Key(s: string): (k: string)
    ensures k != "" ==> k[0] != '0'
  {
    if s != "" && s[0] == '0' then Key(s[1..]) else s
  }

  lemma ByteSplit(n: nat)
    ensures n / 16 == 16 * (n / 256) + n / 16 % 16
  {
    assert n / 256 == n / 16 / 16;
  }

  lemma {:induction false} ValueAppend(s: string, c: char)
    requires AllHex(s) && IsHex(c)
    ensures Value(s + [c]) == 16 * Value(s) + DigitValue(c)
  {
    assert (s + [c])[..|s|] == s;
  }

  lemma {:induction false} BytesValue(n: nat)
    ensures Value(Bytes(n)) == n
  {
    if n > 0 {
      var high, low := DigitChar(n / 16 % 16), DigitChar(n % 16);
      BytesValue(n / 256);
      ValueAppend(Bytes(n / 256), high);
      ValueAppend(Bytes(n / 256) + [high], low);
      assert Bytes(n) == Bytes(n / 256) + [high] + [low];
      ByteSplit(n);
    }
  }

  lemma AllHexRun(s: string)
    requires AllHex(s)
    ensures HexRun(s) == |s|
  {
  }

  // Reading back the text of a serial gives the serial, and the text passes the load check.
  lemma SerialTextRoundTrip(n: int)
    ensures SerialOk(SerialText(n))
    ensures HexToBn(SerialText(n)) == Some(n)
  {
    var m: nat := if n < 0 then -n else n;
    BytesValue(m);
    if n == 0 {
      assert Value("00") == 0 by { assert Value("0") == 0 && "00"[..1] == "0"; }
      AllHexRun("00");
      assert "00"[..2] == "00";
    } else {
      AllHexRun(Bytes(m));
      assert Bytes(m)[..|Bytes(m)|] == Bytes(m);
      assert Bytes(m)[0] != '-';
      if n < 0 { assert SerialText(n)[1..] == Bytes(m); }
    }
  }

  // A loaded serial is read as a number by the CRL generator and compared as text by the index.
  lemma SerialOkParses(s: string)
    requires SerialOk(s)
    ensures HexToBn(s).Some?
  {
    var digits := if s != "" && s[0] == '-' then s[1..] else s;
    AllHexRun(digits);
  }

  function SerialValue(s: string): int
    requires SerialOk(s)
  {
    SerialOkParses(s);
    HexToBn(s).value
  }

  // Leading zeros do not change the value.
  lemma {:induction false} ValueLeadingZero(s: string)
    requires AllHex(s) && s != "" && s[0] == '0'
    ensures AllHex(s[1..]) && Value(s[1..]) == Value(s)
  {
    if |s| == 1 {
      assert Value(s) == 16 * Value(s[..0]) + 0;
    } else {
      var t := s[..|s| - 1];
      ValueLeadingZero(t);
      assert s[1..][..|s| - 2] == t[1..];
      assert s[1..][|s| - 2] == s[|s| - 1];
    }
  }

  lemma {:induction false} KeyValue(s: string)
    requires AllHex(s)
    ensures AllHex(Key(s)) && Value(Key(s)) == Value(s)
    ensures AllUpperHex(s) ==> AllUpperHex(Key(s))
  {
    if s != "" && s[0] == '0' {
      ValueLeadingZero(s);
      KeyValue(s[1..]);
    }
  }

  // A number has one upper-case text without leading zeros.
  lemma {:induction false} KeyUnique(a: string, b: string)
    requires AllUpperHex(a) && AllUpperHex(b) && Value(a) == Value(b)
    requires (a != "" ==> a[0] != '0') && (b != "" ==> b[0] != '0')
    ensures a == b
    decreases |a| + |b|
  {
    if a == "" || b == "" {
      if a != "" { ValuePositive(a); }
      if b != "" { ValuePositive(b); }
    } else {
      var a', b' := a[..|a| - 1], b[..|b| - 1];
      KeyUnique(a', b');
      DigitCharOfValue(a[|a| - 1]);
      DigitCharOfValue(b[|b| - 1]);
      assert a == a' + [a[|a| - 1]] && b == b' + [b[|b| - 1]];
    }
  }

  lemma {:induction false} ValuePositive(s: string)
    requires AllUpperHex(s) && s != "" && s[0] != '0'
    ensures Value(s) > 0
  {
    if |s| > 1 { ValuePositive(s[..|s| - 1]); }
  }

  // The key of a text without minus sign starts with no minus sign, and conversely.
  lemma KeyOfUnsigned(s: string)
    requires AllHex(s)
    ensures Key(s) == "" || Key(s)[0] != '-'
  {
    KeyValue(s);
  }

  // Whether the index finds a loaded serial under the text that is computed from its number: it must be in
  // upper case and, if it is negative, not start with a zero byte.
  predicate Canonical(s: string)
    requires SerialOk(s)
  {
    if s[0] == '-' then AllUpperHex(s[1..]) && !(s[1] == '0' && s[2] == '0') else AllUpperHex(s)
  }

  // Magnitudes are written without leading zero bytes.
  lemma {:induction false} BytesLead(n: nat)
    requires n > 0
    ensures !(Bytes(n)[0] == '0' && Bytes(n)[1] == '0')
  {
    if n >= 256 {
      BytesLead(n / 256);
    } else {
      assert Bytes(n / 256) == "";
    }
  }

  // The key of such a text drops one digit at most, and its length tells whether it did.
  lemma KeyDropsOne(d: string)
    requires |d| % 2 == 0 && |d| >= 2 && !(d[0] == '0' && d[1] == '0')
    ensures Key(d) != "" && d == if |Key(d)| % 2 == 0 then Key(d) else "0" + Key(d)
  {
    if d[0] == '0' { assert Key(d[1..]) == d[1..]; }
  }

  // So the upper-case texts without leading zero bytes are exactly the texts of magnitudes.
  lemma CanonicalMagnitude(d: string)
    requires AllHex(d) && |d| % 2 == 0 && |d| >= 2
    ensures AllUpperHex(d) && !(d[0] == '0' && d[1] == '0') <==> Value(d) > 0 && d == Bytes(Value(d))
  {
    var v := Value(d);
    if v > 0 {
      BytesLead(v);
      BytesValue(v);
    }
    if AllUpperHex(d) && !(d[0] == '0' && d[1] == '0') {
      KeyDropsOne(d);
      KeyValue(d);
      ValuePositive(Key(d));
      KeyDropsOne(Bytes(v));
      KeyValue(Bytes(v));
      KeyUnique(Key(d), Key(Bytes(v)));
    }
  }

  lemma CanonicalIsFound(s: string)
    requires SerialOk(s)
    ensures Key(s) == Key(SerialText(SerialValue(s))) <==> Canonical(s)
  {
    if s[0] == '-' { NegativeIsFound(s); } else { UnsignedIsFound(s); }
  }

  lemma NegativeIsFound(s: string)
    requires SerialOk(s) && s[0] == '-'
    ensures Key(s) == Key(SerialText(SerialValue(s))) <==> Canonical(s)
  {
    hide Bytes, Value, SerialValue, HexToBn, Key;
    var n, d := SerialValue(s), s[1..];
    NegativeValue(s);
    CanonicalMagnitude(d);
    KeySigned(s);
    assert s == "-" + d;
    if n < 0 {
      KeySigned(SerialText(n));
      assert SerialText(n)[1..] == Bytes(-n);
    } else {
      SerialTextRoundTrip(0);
      KeyOfUnsigned("00");
    }
  }

  lemma KeySigned(s: string)
    requires s != "" && s[0] == '-'
    ensures Key(s) == s
  {
  }

  lemma NegativeValue(s: string)
    requires SerialOk(s) && s[0] == '-'
    ensures SerialValue(s) == 0 - Value(s[1..])
  {
    AllHexRun(s[1..]);
    assert s[1..][..|s[1..]|] == s[1..];
  }

  lemma UnsignedIsFound(s: string)
    requires SerialOk(s) && s[0] != '-'
    ensures Key(s) == Key(SerialText(SerialValue(s))) <==> Canonical(s)
  {
    var n := SerialValue(s);
    SerialTextRoundTrip(n);
    AllHexRun(s);
    assert s[..|s|] == s;
    var t := SerialText(n);
    AllHexRun(t);
    assert t[..|t|] == t;
    KeyValue(s);
    KeyValue(t);
    if AllUpperHex(s) { KeyUnique(Key(s), Key(t)); }
    if Key(s) == Key(t) { KeyUpper(s); }
  }

  // Dropping leading zeros drops no lower-case digit.
  lemma {:induction false} KeyUpper(s: string)
    requires AllHex(s) && AllUpperHex(Key(s))
    ensures AllUpperHex(s)
  {
    if s != "" && s[0] == '0' {
      KeyUpper(s[1..]);
      assert s == [s[0]] + s[1..];
    }
  }

  // The texts that the tool computes are canonical, so different serials have different keys.
  lemma SerialTextCanonical(n: int)
    ensures SerialOk(SerialText(n)) && SerialValue(SerialText(n)) == n && Canonical(SerialText(n))
  {
    SerialTextRoundTrip(n);
    CanonicalIsFound(SerialText(n));
  }

  lemma SerialKeysDiffer(m: int, n: int)
    requires Key(SerialText(m)) == Key(SerialText(n))
    ensures m == n
  {
    SerialTextRoundTrip(m);
    SerialTextRoundTrip(n);
    var s, t := SerialText(m), SerialText(n);
    if m >= 0 && n >= 0 {
      AllHexRun(s);
      AllHexRun(t);
      assert s[..|s|] == s && t[..|t|] == t;
      KeyValue(s);
      KeyValue(t);
    } else {
      if m >= 0 { KeyOfUnsigned(s); }
      if n >= 0 { KeyOfUnsigned(t); }
    }
  }

  // A serial found under the text of a number has that number.
  lemma KeyGivesValue(s: string, n: int)
    requires SerialOk(s) && Key(s) == Key(SerialText(n))
    ensures SerialValue(s) == n
  {
    SerialTextRoundTrip(n);
    var t := SerialText(n);
    if s[0] == '-' {
      if n >= 0 { KeyOfUnsigned(t); }
      assert s == t;
    } else {
      KeyOfUnsigned(s);
      assert n >= 0;
      AllHexRun(s);
      AllHexRun(t);
      assert s[..|s|] == s && t[..|t|] == t;
      KeyValue(s);
      KeyValue(t);
    }
  }
}
