/** The asset record the contract keeps at each key, and its stored form:
    the JSON object JSON.stringify writes for it, with the eight fields in
    their fixed order. The key itself is not part of the record. */
module Assets {
  import opened Wrappers
  import opened Json

  datatype Asset = Asset(
    dealerId: Value,
    msisdn: Value,
    mpin: Value,
    balance: Value,
    status: Value,
    transAmount: Value,
    transType: Value,
    remarks: Value)

  /** The record's property names, in the order the object literal lists them. */
  const FieldNames: seq<string> :=
    ["DEALERID", "MSISDN", "MPIN", "BALANCE", "STATUS", "TRANSAMOUNT", "TRANSTYPE", "REMARKS"]

  function Fields(a: Asset): (vs: seq<Value>)
    ensures |vs| == |FieldNames|
  {
    [a.dealerId, a.msisdn, a.mpin, a.balance, a.status, a.transAmount, a.transType, a.remarks]
  }

  function FromFields(vs: seq<Value>): Asset
    requires |vs| == |FieldNames|
  {
    Asset(vs[0], vs[1], vs[2], vs[3], vs[4], vs[5], vs[6], vs[7])
  }

  /** `"KEY":` — the property names need no escaping. */
  function KeyText(key: string): string {
    "\"" + key + "\":"
  }

  function Member(key: string, v: Value): string {
    KeyText(key) + EncodeValue(v)
  }

  /** The members of an object, separated by commas. */
  function Members(keys: seq<string>, vs: seq<Value>): string
    requires 1 <= |keys| == |vs|
    decreases |keys|
  {
    if |keys| == 1 then Member(keys[0], vs[0])
    else Member(keys[0], vs[0]) + "," + Members(keys[1..], vs[1..])
  }

  /** JSON.stringify of the record. */
  function Encode(a: Asset): (r: string)
    ensures 0 < |r| && r[0] == '{'
  {
    "{" + Members(FieldNames, Fields(a)) + "}"
  }

  function ParseMember(key: string, s: string): Option<(Value, string)> {
    var p := KeyText(key);
    if |p| <= |s| && s[..|p|] == p then ParseValue(s[|p|..]) else None
  }

  /** The members named keys, in that order, then the closing brace, which
      must end the input. */
  function ParseMembers(keys: seq<string>, s: string): (r: Option<seq<Value>>)
    requires 1 <= |keys|
    ensures r.Some? ==> |r.value| == |keys|
    decreases |keys|
  {
    var m :- ParseMember(keys[0], s);
    if |keys| == 1 then
      (if m.1 == "}" then Some([m.0]) else None)
    else if 0 < |m.1| && m.1[0] == ',' then
      var vs :- ParseMembers(keys[1..], m.1[1..]);
      Some([m.0] + vs)
    else None
  }

  /** Reads a stored record back; None for any text Encode does not produce. */
  function Decode(s: string): (r: Option<Asset>)
    ensures r.Some? ==> 2 <= |s| && s[0] == '{' && s[|s| - 1] == '}'
  {
    if 0 < |s| && s[0] == '{' then
      var vs :- ParseMembers(FieldNames, s[1..]);
      assert s[|s| - 1] == '}' by { MembersEndWithBrace(FieldNames, s[1..]); }
      Some(FromFields(vs))
    else None
  }

  lemma {:induction false} MemberRestIsSuffix(key: string, s: string)
    requires ParseMember(key, s).Some?
    ensures ProperSuffix(ParseMember(key, s).value.1, s)
  {
    var p := KeyText(key);
    ValueRestIsSuffix(s[|p|..]);
    SuffixOfSuffix(ParseMember(key, s).value.1, s[|p|..], s);
  }

  /** The members' text runs to the closing brace, which ends the input. */
  lemma {:induction false} MembersEndWithBrace(keys: seq<string>, s: string)
    requires 1 <= |keys| && ParseMembers(keys, s).Some?
    ensures 0 < |s| && s[|s| - 1] == '}'
    decreases |keys|
  {
    var m := ParseMember(keys[0], s).value;
    MemberRestIsSuffix(keys[0], s);
    if 1 < |keys| {
      MembersEndWithBrace(keys[1..], m.1[1..]);
      assert s[|s| - 1] == m.1[|m.1| - 1];
    }
  }

  lemma {:induction false} ParseMemberOfText(key: string, v: Value, rest: string)
    requires Delimited(rest)
    ensures ParseMember(key, Member(key, v) + rest) == Some((v, rest))
  {
    var p := KeyText(key);
    var s := Member(key, v) + rest;
    assert s[..|p|] == p;
    assert s[|p|..] == EncodeValue(v) + rest;
    ParseEncodedValue(v, rest);
  }

  lemma {:induction false} ParseMembersOfText(keys: seq<string>, vs: seq<Value>)
    requires 1 <= |keys| == |vs|
    ensures ParseMembers(keys, Members(keys, vs) + "}") == Some(vs)
    decreases |keys|
  {
    var s := Members(keys, vs) + "}";
    if |keys| == 1 {
      assert s == Member(keys[0], vs[0]) + "}";
      ParseMemberOfText(keys[0], vs[0], "}");
      ParseLastMember(keys, s, vs[0]);
      assert [vs[0]] == vs;
    } else {
      var tail := Members(keys[1..], vs[1..]) + "}";
      MembersUnfold(keys, vs);
      ParseMemberOfText(keys[0], vs[0], "," + tail);
      ParseMembersOfText(keys[1..], vs[1..]);
      ParseNextMember(keys, s, vs[0], tail, vs[1..]);
      assert [vs[0]] + vs[1..] == vs;
    }
  }

  /** The text of two or more members: the first, a comma, and the rest. */
  lemma {:induction false} MembersUnfold(keys: seq<string>, vs: seq<Value>)
    requires 2 <= |keys| == |vs|
    ensures Members(keys, vs) + "}"
            == Member(keys[0], vs[0]) + ("," + (Members(keys[1..], vs[1..]) + "}"))
  {
  }

  lemma {:induction false} ParseLastMember(keys: seq<string>, s: string, v: Value)
    requires |keys| == 1 && ParseMember(keys[0], s) == Some((v, "}"))
    ensures ParseMembers(keys, s) == Some([v])
  {
  }

  lemma {:induction false} ParseNextMember(keys: seq<string>, s: string, v: Value, tail: string, ws: seq<Value>)
    requires 2 <= |keys|
    requires ParseMember(keys[0], s) == Some((v, "," + tail))
    requires ParseMembers(keys[1..], tail) == Some(ws)
    ensures ParseMembers(keys, s) == Some([v] + ws)
  {
    assert ("," + tail)[1..] == tail;
  }

  /** Text the member parser accepts is the member's text and the unread rest. */
  lemma {:induction false} MemberOfParse(key: string, s: string)
    requires ParseMember(key, s).Some?
    ensures s == Member(key, ParseMember(key, s).value.0) + ParseMember(key, s).value.1
  {
    var p := KeyText(key);
    var m := ParseMember(key, s).value;
    assert |p| <= |s| && s[..|p|] == p && ParseValue(s[|p|..]) == Some(m);
    assert s[|p|..] == EncodeValue(m.0) + m.1 by {
      EncodedValueOfParse(s[|p|..]);
    }
    SplitAt(s, p, EncodeValue(m.0), m.1);
  }

  /** s is a, then b, then c, when a is its prefix and b + c the remainder. */
  lemma {:induction false} SplitAt(s: string, a: string, b: string, c: string)
    requires |a| <= |s| && s[..|a|] == a && s[|a|..] == b + c
    ensures s == (a + b) + c
  {
    assert s == s[..|a|] + s[|a|..];
  }

  lemma {:induction false} MembersOfParse(keys: seq<string>, s: string)
    requires 1 <= |keys| && ParseMembers(keys, s).Some?
    ensures s == Members(keys, ParseMembers(keys, s).value) + "}"
    decreases |keys|
  {
    var m := ParseMember(keys[0], s).value;
    var vs := ParseMembers(keys, s).value;
    MemberOfParse(keys[0], s);
    if |keys| == 1 {
      assert vs == [m.0] && m.1 == "}";
      assert Members(keys, vs) == Member(keys[0], m.0);
    } else {
      var t := m.1[1..];
      ParsedNextMember(keys, s);
      MembersOfParse(keys[1..], t);
      MembersOfParseStep(keys, s, m.0, t, ParseMembers(keys[1..], t).value);
    }
  }

  /** What the member parser does with two or more keys: a member, a comma,
      and the members of the remaining keys. */
  lemma {:induction false} ParsedNextMember(keys: seq<string>, s: string)
    requires 2 <= |keys| && ParseMembers(keys, s).Some?
    ensures var m := ParseMember(keys[0], s).value;
      && 0 < |m.1| && m.1 == "," + m.1[1..]
      && ParseMembers(keys[1..], m.1[1..]).Some?
      && ParseMembers(keys, s).value == [m.0] + ParseMembers(keys[1..], m.1[1..]).value
  {
    var m := ParseMember(keys[0], s).value;
    var t := m.1[1..];
    assert 0 < |m.1| && m.1[0] == ',' && ParseMembers(keys[1..], t).Some?
      && ParseMembers(keys, s).value == [m.0] + ParseMembers(keys[1..], t).value;
    assert m.1 == "," + t by {
      assert m.1 == [m.1[0]] + m.1[1..];
    }
  }

  lemma {:induction false} MembersOfParseStep(keys: seq<string>, s: string, v: Value, t: string, ws: seq<Value>)
    requires 2 <= |keys| && |ws| == |keys| - 1
    requires s == Member(keys[0], v) + ("," + t)
    requires t == Members(keys[1..], ws) + "}"
    ensures s == Members(keys, [v] + ws) + "}"
  {
    var vs := [v] + ws;
    assert vs[0] == v && vs[1..] == ws;
    MembersUnfold(keys, vs);
  }

  lemma {:induction false} DecodeEncode(a: Asset)
    ensures Decode(Encode(a)) == Some(a)
  {
    var vs := Fields(a);
    var body := Members(FieldNames, vs) + "}";
    assert Encode(a) == "{" + body by {
      EncodeWraps(a);
    }
    assert ParseMembers(FieldNames, body) == Some(vs) by {
      ParseMembersOfText(FieldNames, vs);
    }
    DecodeBraced(body, vs);
    assert FromFields(vs) == a;
  }

  /** An opening brace followed by members that parse is the record they list. */
  lemma {:induction false} DecodeBraced(body: string, vs: seq<Value>)
    requires ParseMembers(FieldNames, body) == Some(vs)
    ensures Decode("{" + body) == Some(FromFields(vs))
  {
    var s := "{" + body;
    assert s[1..] == body;
    DecodeObject(s);
  }

  lemma {:induction false} DecodeObject(s: string)
    requires 0 < |s| && s[0] == '{'
    ensures Decode(s) == (match ParseMembers(FieldNames, s[1..])
                          case None => None
                          case Some(vs) => Some(FromFields(vs)))
  {
  }

  /** Canonicity: the only text that reads as a record is that record's
      encoding, so two different records never share a stored form. */
  lemma {:induction false} EncodeDecode(s: string)
    requires Decode(s).Some?
    ensures Encode(Decode(s).value) == s
  {
    var vs := ParseMembers(FieldNames, s[1..]).value;
    assert Decode(s) == Some(FromFields(vs)) by {
      DecodeObject(s);
    }
    MembersOfParse(FieldNames, s[1..]);
    EncodeOfMembers(s, vs);
  }

  /** The text made of an opening brace and the members of vs is the
      encoding of the record vs lists. */
  lemma {:induction false} EncodeOfMembers(s: string, vs: seq<Value>)
    requires |vs| == |FieldNames| && 0 < |s| && s[0] == '{'
    requires s[1..] == Members(FieldNames, vs) + "}"
    ensures Encode(FromFields(vs)) == s
  {
    var a := FromFields(vs);
    var body := Members(FieldNames, vs) + "}";
    assert Encode(a) == "{" + body by {
      FieldsOfFromFields(vs);
      EncodeWraps(a);
    }
    OpenBrace(s, body);
  }

  lemma {:induction false} EncodeWraps(a: Asset)
    ensures Encode(a) == "{" + (Members(FieldNames, Fields(a)) + "}")
  {
  }

  lemma {:induction false} OpenBrace(s: string, body: string)
    requires 0 < |s| && s[0] == '{' && s[1..] == body
    ensures s == "{" + body
  {
    assert s == [s[0]] + s[1..];
  }

  lemma {:induction false} FieldsOfFromFields(vs: seq<Value>)
    requires |vs| == |FieldNames|
    ensures Fields(FromFields(vs)) == vs
  {
    var ws := Fields(FromFields(vs));
    assert |ws| == |vs|;
    forall i | 0 <= i < |vs| ensures ws[i] == vs[i] {
    }
  }

  /** Together: a text decodes to a record exactly when it is that record's encoding. */
  lemma {:induction false} DecodeIffEncode(s: string, a: Asset)
    ensures Decode(s) == Some(a) <==> s == Encode(a)
  {
    if s == Encode(a) {
      DecodeEncode(a);
    }
    if Decode(s) == Some(a) {
      EncodeDecode(s);
    }
  }
}
