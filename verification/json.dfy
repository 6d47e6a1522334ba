/** The fragment of JSON the asset contract reads and writes: string and
    integer values, written the way JavaScript's JSON.stringify writes them,
    and read back by a strict parser that accepts exactly that canonical
    text. */
module Json {
  import opened Wrappers

  /** A field value as the contract stores it: a string or an integer. */
  datatype Value = Str(s: string) | Num(n: int)

  // ----- decimal integers -----

  predicate IsDigit(c: char) {
    '0' <= c <= '9'
  }

  predicate AllDigits(s: string) {
    forall i :: 0 <= i < |s| ==> IsDigit(s[i])
  }

  function DigitChar(d: nat): (c: char)
    requires d < 10
    ensures IsDigit(c)
    ensures c == '0' <==> d == 0
  {
    ('0' as int + d) as char
  }

  function DigitVal(c: char): (d: nat)
    requires IsDigit(c)
    ensures d < 10 && DigitChar(d) == c
  {
    c as int - '0' as int
  }

  /** Decimal text of n without leading zeros, as JavaScript prints a
      non-negative integer. */
  function NatText(n: nat): (r: string)
    ensures 1 <= |r| && AllDigits(r)
    ensures r[0] == '0' <==> n == 0
  {
    if n < 10 then [DigitChar(n)] else NatText(n / 10) + [DigitChar(n % 10)]
  }

  /** The number a run of decimal digits denotes, most significant first. */
  function DigitsValue(ds: string): nat
    requires AllDigits(ds)
  {
    if |ds| == 0 then 0
    else DigitsValue(ds[..|ds| - 1]) * 10 + DigitVal(ds[|ds| - 1])
  }

  /** Decimal text of an integer, with a leading '-' when negative. */
  function IntText(n: int): string {
    if n < 0 then "-" + NatText(-n) else NatText(n)
  }

  /** Length of the longest prefix of s made of digits. */
  function DigitRun(s: string): (k: nat)
    ensures k <= |s| && AllDigits(s[..k])
    ensures k < |s| ==> !IsDigit(s[k])
  {
    if |s| == 0 || !IsDigit(s[0]) then 0
    else
      var k := 1 + DigitRun(s[1..]);
      assert s[..k] == [s[0]] + s[1..][..k - 1];
      k
  }

  /** A non-negative integer at the front of s, in canonical form (no
      leading zero), and what follows it. */
  function ParseNat(s: string): Option<(nat, string)> {
    var k := DigitRun(s);
    if k == 0 || (k > 1 && s[0] == '0') then None
    else Some((DigitsValue(s[..k]), s[k..]))
  }

  /** An integer at the front of s, in canonical form ("-0" is refused,
      since JSON.stringify prints zero as "0"), and what follows it. */
  function ParseInt(s: string): Option<(int, string)> {
    if 0 < |s| && s[0] == '-' then
      (var p :- ParseNat(s[1..]);
       var n: int := 0 - p.0 as int;
       if n == 0 then None else Some((n, p.1)))
    else ParseNat(s)
  }

  // ----- strings -----

  predicate IsHex(c: char) {
    IsDigit(c) || 'a' <= c <= 'f'
  }

  /** Lower-case hexadecimal digit, as JSON.stringify writes \u escapes. */
  function HexChar(d: nat): (c: char)
    requires d < 16
    ensures IsHex(c)
  {
    if d < 10 then DigitChar(d) else ('a' as int + d - 10) as char
  }

  function HexVal(c: char): (d: nat)
    requires IsHex(c)
    ensures d < 16 && HexChar(d) == c
  {
    if IsDigit(c) then DigitVal(c) else c as int - 'a' as int + 10
  }

  /** The letter of the two-character escape JSON.stringify uses for c, if any. */
  function ShortEscape(c: char): Option<char> {
    if c == '"' then Some('"')
    else if c == '\\' then Some('\\')
    else if c == 8 as char then Some('b')
    else if c == 9 as char then Some('t')
    else if c == 10 as char then Some('n')
    else if c == 12 as char then Some('f')
    else if c == 13 as char then Some('r')
    else None
  }

  /** The character a two-character escape letter stands for, if any. */
  function ShortUnescape(e: char): Option<char> {
    if e == '"' then Some('"')
    else if e == '\\' then Some('\\')
    else if e == 'b' then Some(8 as char)
    else if e == 't' then Some(9 as char)
    else if e == 'n' then Some(10 as char)
    else if e == 'f' then Some(12 as char)
    else if e == 'r' then Some(13 as char)
    else None
  }

  /** How JSON.stringify writes one character inside a string literal:
      a short escape, a \u00XX escape for the other control characters,
      or the character itself. */
  function EscapeChar(c: char): (r: string)
    ensures 1 <= |r| && r[0] != '"'
  {
    match ShortEscape(c)
    case Some(e) => ['\\', e]
    case None =>
      if c < ' ' then ['\\', 'u', '0', '0', HexChar(c as int / 16), HexChar(c as int % 16)]
      else [c]
  }

  function Escape(s: string): string {
    if |s| == 0 then [] else EscapeChar(s[0]) + Escape(s[1..])
  }

  /** Reads one (possibly escaped) character of a string literal's body:
      the character and the number of input characters it took. Only the
      escapes JSON.stringify writes are accepted. */
  function DecodeUnit(s: string): (r: Option<(char, nat)>)
    requires 0 < |s|
    ensures r.Some? ==> 1 <= r.value.1 <= |s|
  {
    if s[0] == '\\' then
      if 2 <= |s| && ShortUnescape(s[1]).Some? then Some((ShortUnescape(s[1]).value, 2))
      else if 6 <= |s| && s[1..4] == "u00" && (s[4] == '0' || s[4] == '1') && IsHex(s[5]) then
        var hi := if s[4] == '0' then 0 else 1;
        var c := (hi * 16 + HexVal(s[5])) as char;
        if ShortEscape(c).None? then Some((c, 6)) else None
      else None
    else if s[0] < ' ' || s[0] == '"' then None
    else Some((s[0], 1))
  }

  /** The body of a string literal up to its closing quote: the decoded
      characters and what follows the quote. */
  function ParseChars(s: string): Option<(string, string)>
    decreases |s|
  {
    if |s| == 0 then None
    else if s[0] == '"' then Some(([], s[1..]))
    else
      var u :- DecodeUnit(s);
      var p :- ParseChars(s[u.1..]);
      Some(([u.0] + p.0, p.1))
  }

  // ----- values -----

  function EncodeValue(v: Value): string {
    match v
    case Str(s) => "\"" + Escape(s) + "\""
    case Num(n) => IntText(n)
  }

  function ParseValue(s: string): Option<(Value, string)> {
    if 0 < |s| && s[0] == '"' then
      var p :- ParseChars(s[1..]);
      Some((Str(p.0), p.1))
    else
      var p :- ParseInt(s);
      Some((Num(p.0), p.1))
  }

  /** What may follow a value: anything but a further digit. */
  predicate Delimited(rest: string) {
    |rest| == 0 || !IsDigit(rest[0])
  }

  // ----- suffixes -----

  /** t is what is left of s after a non-empty prefix was read. */
  predicate ProperSuffix(t: string, s: string) {
    |t| < |s| && s[|s| - |t|..] == t
  }

  /** A suffix of a tail of s is a suffix of s. */
  lemma {:induction false} SuffixOfSuffix(t: string, u: string, s: string)
    requires ProperSuffix(t, u) || t == u
    requires ProperSuffix(u, s)
    ensures ProperSuffix(t, s)
  {
    assert s[|s| - |t|..] == s[|s| - |u|..][|u| - |t|..];
  }

  /** The parser reads a value from the front of s: what it leaves is a
      proper suffix of s. */
  lemma {:induction false} ValueRestIsSuffix(s: string)
    requires ParseValue(s).Some?
    ensures ProperSuffix(ParseValue(s).value.1, s)
  {
    if 0 < |s| && s[0] == '"' {
      CharsRestIsSuffix(s[1..]);
      SuffixOfSuffix(ParseValue(s).value.1, s[1..], s);
    } else if 0 < |s| && s[0] == '-' {
      SuffixOfSuffix(ParseValue(s).value.1, s[1..], s);
    }
  }

  lemma {:induction false} CharsRestIsSuffix(s: string)
    requires ParseChars(s).Some?
    ensures ProperSuffix(ParseChars(s).value.1, s)
    decreases |s|
  {
    if s[0] != '"' {
      var u := DecodeUnit(s).value;
      CharsRestIsSuffix(s[u.1..]);
      SuffixOfSuffix(ParseChars(s).value.1, s[u.1..], s);
    }
  }

  // ----- integer lemmas -----

  lemma {:induction false} NatTextValue(n: nat)
    ensures DigitsValue(NatText(n)) == n
  {
    var t := NatText(n);
    if n >= 10 {
      assert t[..|t| - 1] == NatText(n / 10);
      NatTextValue(n / 10);
    } else {
      assert t[..0] == [];
    }
  }

  lemma {:induction false} PositiveValue(ds: string)
    requires 1 <= |ds| && AllDigits(ds) && ds[0] != '0'
    ensures 1 <= DigitsValue(ds)
  {
    if 1 < |ds| {
      PositiveValue(ds[..|ds| - 1]);
    } else {
      assert ds[..0] == [];
      assert DigitChar(DigitVal(ds[0])) == ds[0];
    }
  }

  /** Canonical digit runs are exactly the texts NatText produces. */
  lemma {:induction false} ValueNatText(ds: string)
    requires 1 <= |ds| && AllDigits(ds) && (|ds| == 1 || ds[0] != '0')
    ensures NatText(DigitsValue(ds)) == ds
  {
    var init := ds[..|ds| - 1];
    var d := DigitVal(ds[|ds| - 1]);
    if 1 < |ds| {
      ValueNatText(init);
      PositiveValue(init);
      var v := DigitsValue(init);
      assert DigitsValue(ds) == v * 10 + d;
      assert (v * 10 + d) / 10 == v && (v * 10 + d) % 10 == d;
      assert ds == init + [ds[|ds| - 1]];
    } else {
      assert init == [];
      assert ds == [ds[0]];
    }
  }

  lemma {:induction false} DigitRunOfDigits(ds: string, rest: string)
    requires AllDigits(ds) && Delimited(rest)
    ensures DigitRun(ds + rest) == |ds|
  {
    if 0 < |ds| {
      assert (ds + rest)[1..] == ds[1..] + rest;
      DigitRunOfDigits(ds[1..], rest);
    } else {
      assert ds + rest == rest;
    }
  }

  lemma {:induction false} ParseNatText(n: nat, rest: string)
    requires Delimited(rest)
    ensures ParseNat(NatText(n) + rest) == Some((n, rest))
  {
    var t := NatText(n);
    DigitRunOfDigits(t, rest);
    assert (t + rest)[..|t|] == t;
    assert (t + rest)[|t|..] == rest;
    NatTextValue(n);
  }

  lemma {:induction false} ParseIntText(n: int, rest: string)
    requires Delimited(rest)
    ensures ParseInt(IntText(n) + rest) == Some((n, rest))
  {
    if n < 0 {
      assert IntText(n) == "-" + NatText(-n);
      ParseNegativeText(-n, rest);
    } else {
      assert IntText(n) == NatText(n);
      ParseNonNegativeText(n, rest);
    }
  }

  lemma {:induction false} ParseNegativeText(m: nat, rest: string)
    requires 0 < m && Delimited(rest)
    ensures ParseInt(("-" + NatText(m)) + rest) == Some((-(m as int), rest))
  {
    var s := ("-" + NatText(m)) + rest;
    assert s[0] == '-';
    assert s[1..] == NatText(m) + rest;
    ParseNatText(m, rest);
  }

  lemma {:induction false} ParseNonNegativeText(n: nat, rest: string)
    requires Delimited(rest)
    ensures ParseInt(NatText(n) + rest) == Some((n, rest))
  {
    var t := NatText(n);
    assert (t + rest)[0] == t[0];
    ParseNatText(n, rest);
  }

  lemma {:induction false} IntTextOfParse(s: string)
    requires ParseInt(s).Some?
    ensures s == IntText(ParseInt(s).value.0) + ParseInt(s).value.1
    ensures Delimited(ParseInt(s).value.1)
  {
    if 0 < |s| && s[0] == '-' {
      NegativeTextOfParse(s);
    } else {
      assert ParseInt(s) == ParseNat(s);
      NatTextOfParse(s);
    }
  }

  lemma {:induction false} NegativeTextOfParse(s: string)
    requires 0 < |s| && s[0] == '-' && ParseInt(s).Some?
    ensures s == IntText(ParseInt(s).value.0) + ParseInt(s).value.1
    ensures Delimited(ParseInt(s).value.1)
  {
    var p := ParseNat(s[1..]).value;
    var n: int := -(p.0 as int);
    assert ParseInt(s) == Some((n, p.1)) && 0 < p.0;
    assert s[1..] == NatText(p.0) + p.1 && Delimited(p.1) by {
      NatTextOfParse(s[1..]);
    }
    assert IntText(n) == "-" + NatText(p.0);
    SignThen(s, NatText(p.0), p.1);
  }

  /** A text whose first character is a minus sign, then a, then b. */
  lemma {:induction false} SignThen(s: string, a: string, b: string)
    requires 0 < |s| && s[0] == '-' && s[1..] == a + b
    ensures s == ("-" + a) + b
  {
    assert s == [s[0]] + s[1..];
  }

  lemma {:induction false} NatTextOfParse(s: string)
    requires ParseNat(s).Some?
    ensures s == NatText(ParseNat(s).value.0) + ParseNat(s).value.1
    ensures Delimited(ParseNat(s).value.1)
  {
    var k := DigitRun(s);
    ValueNatText(s[..k]);
    assert s == s[..k] + s[k..];
  }

  // ----- string lemmas -----

  lemma {:induction false} DecodeEscapeChar(c: char, t: string)
    ensures DecodeUnit(EscapeChar(c) + t) == Some((c, |EscapeChar(c)|))
  {
    var s := EscapeChar(c) + t;
    match ShortEscape(c)
    case Some(e) =>
      assert s[0] == '\\' && s[1] == e;
    case None =>
      if c < ' ' {
        DecodeControlEscape(c, t);
      } else {
        assert s[0] == c;
      }
  }

  /** A control character without a short escape reads back from its \u00XX form. */
  lemma {:induction false} DecodeControlEscape(c: char, t: string)
    requires c < ' ' && ShortEscape(c).None?
    ensures DecodeUnit(EscapeChar(c) + t) == Some((c, 6))
  {
    var hi := c as int / 16;
    var lo := c as int % 16;
    var e := ['\\', 'u', '0', '0', HexChar(hi), HexChar(lo)];
    assert EscapeChar(c) == e;
    var s := e + t;
    assert s[0] == '\\' && s[1] == 'u' && s[4] == HexChar(hi) && s[5] == HexChar(lo);
    assert s[1..4] == "u00";
    assert hi == 0 || hi == 1;
    assert HexChar(hi) == if hi == 0 then '0' else '1';
    assert HexVal(HexChar(lo)) == lo;
    assert (hi * 16 + lo) as char == c;
  }

  lemma {:induction false} UnitIsEscape(s: string)
    requires 0 < |s| && DecodeUnit(s).Some?
    ensures s[..DecodeUnit(s).value.1] == EscapeChar(DecodeUnit(s).value.0)
  {
    var c := DecodeUnit(s).value.0;
    if s[0] == '\\' {
      if 2 <= |s| && ShortUnescape(s[1]).Some? {
        assert ShortEscape(c) == Some(s[1]);
      } else {
        var hi := if s[4] == '0' then 0 else 1;
        assert c as int == hi * 16 + HexVal(s[5]);
        assert c as int / 16 == hi && c as int % 16 == HexVal(s[5]);
        assert HexChar(hi) == s[4];
        assert s[..6] == ['\\', 'u', '0', '0', s[4], s[5]];
      }
    }
  }

  lemma {:induction false} ParseEscaped(s: string, rest: string)
    ensures ParseChars(Escape(s) + "\"" + rest) == Some((s, rest))
  {
    if |s| == 0 {
      assert Escape(s) + "\"" + rest == "\"" + rest;
    } else {
      var e := EscapeChar(s[0]);
      var tail := Escape(s[1..]) + "\"" + rest;
      assert Escape(s) + "\"" + rest == e + tail;
      DecodeEscapeChar(s[0], tail);
      assert (e + tail)[|e|..] == tail;
      ParseEscaped(s[1..], rest);
      assert [s[0]] + s[1..] == s;
    }
  }

  lemma {:induction false} EscapedOfParse(s: string)
    requires ParseChars(s).Some?
    ensures s == Escape(ParseChars(s).value.0) + "\"" + ParseChars(s).value.1
    decreases |s|
  {
    if s[0] != '"' {
      var u := DecodeUnit(s).value;
      EscapedOfParse(s[u.1..]);
      UnitIsEscape(s);
      EscapedStep(s, u.0, u.1);
    }
  }

  /** One unit of a parsed string body, then the rest parsed recursively. */
  lemma {:induction false} EscapedStep(s: string, c: char, k: nat)
    requires 0 < |s| && s[0] != '"' && DecodeUnit(s) == Some((c, k))
    requires s[..k] == EscapeChar(c)
    requires ParseChars(s[k..]).Some?
    requires s[k..] == Escape(ParseChars(s[k..]).value.0) + "\"" + ParseChars(s[k..]).value.1
    ensures ParseChars(s).Some?
    ensures s == Escape(ParseChars(s).value.0) + "\"" + ParseChars(s).value.1
  {
    var p := ParseChars(s[k..]).value;
    assert ParseChars(s) == Some(([c] + p.0, p.1));
    EscapeCons(c, p.0);
    Reassociate(s, k, EscapeChar(c), Escape(p.0), p.1);
  }

  lemma {:induction false} EscapeCons(c: char, t: string)
    ensures Escape([c] + t) == EscapeChar(c) + Escape(t)
  {
    assert ([c] + t)[1..] == t;
  }

  lemma {:induction false} Reassociate(s: string, k: nat, e: string, body: string, rest: string)
    requires k <= |s| && s[..k] == e && s[k..] == body + "\"" + rest
    ensures s == (e + body) + "\"" + rest
  {
    assert s == s[..k] + s[k..];
  }

  // ----- value lemmas -----

  /** Reading back a written value gives the value and leaves the rest. */
  lemma {:induction false} ParseEncodedValue(v: Value, rest: string)
    requires Delimited(rest)
    ensures ParseValue(EncodeValue(v) + rest) == Some((v, rest))
  {
    match v
    case Str(s) => ParseEncodedString(s, rest);
    case Num(n) => ParseEncodedNumber(n, rest);
  }

  lemma {:induction false} ParseEncodedString(s: string, rest: string)
    ensures ParseValue(EncodeValue(Str(s)) + rest) == Some((Str(s), rest))
  {
    var u := EncodeValue(Str(s)) + rest;
    assert u[0] == '"';
    assert u[1..] == Escape(s) + "\"" + rest;
    ParseEscaped(s, rest);
  }

  lemma {:induction false} ParseEncodedNumber(n: int, rest: string)
    requires Delimited(rest)
    ensures ParseValue(EncodeValue(Num(n)) + rest) == Some((Num(n), rest))
  {
    var t := IntText(n);
    assert t[0] == '-' || IsDigit(t[0]);
    assert (t + rest)[0] == t[0];
    ParseIntText(n, rest);
  }

  /** Every value the parser accepts was written by EncodeValue. */
  lemma {:induction false} EncodedValueOfParse(s: string)
    requires ParseValue(s).Some?
    ensures s == EncodeValue(ParseValue(s).value.0) + ParseValue(s).value.1
  {
    if 0 < |s| && s[0] == '"' {
      var p := ParseChars(s[1..]).value;
      assert ParseValue(s) == Some((Str(p.0), p.1));
      StringOfParse(s);
    } else {
      var p := ParseInt(s).value;
      assert ParseValue(s) == Some((Num(p.0), p.1));
      IntTextOfParse(s);
    }
  }

  lemma {:induction false} StringOfParse(s: string)
    requires 0 < |s| && s[0] == '"' && ParseChars(s[1..]).Some?
    ensures s == EncodeValue(Str(ParseChars(s[1..]).value.0)) + ParseChars(s[1..]).value.1
  {
    var p := ParseChars(s[1..]).value;
    assert s[1..] == Escape(p.0) + "\"" + p.1 by {
      EscapedOfParse(s[1..]);
    }
    assert EncodeValue(Str(p.0)) == "\"" + Escape(p.0) + "\"";
    QuotedThen(s, Escape(p.0), p.1);
  }

  /** A text that opens with a quote, then a, a closing quote, and b. */
  lemma {:induction false} QuotedThen(s: string, a: string, b: string)
    requires 0 < |s| && s[0] == '"' && s[1..] == a + "\"" + b
    ensures s == ("\"" + a + "\"") + b
  {
    assert s == [s[0]] + s[1..];
  }
}
