/** Reading a JSON value does not look past its end: text that follows a complete value is
    left over.  (A number alone may run on, so it needs something after it.) */
module JsonPrefix {
  import opened CanonicalJson

  lemma {:induction false} DigitsExtend(s: string, acc: nat, x: string)
    requires ParseDigits(s, acc).1 != []
    ensures ParseDigits(s + x, acc) == (ParseDigits(s, acc).0, ParseDigits(s, acc).1 + x)
  {
    assert s != [] && (s + x)[0] == s[0];
    if IsDigit(s[0]) {
      assert (s + x)[1..] == s[1..] + x;
      DigitsExtend(s[1..], 10 * acc + DigitValue(s[0]), x);
    }
  }

  lemma NatExtend(s: string, x: string)
    requires ParseNat(s).Done? && ParseNat(s).rest != []
    ensures ParseNat(s + x) == Done(ParseNat(s).value, ParseNat(s).rest + x)
  {
    assert (s + x)[0] == s[0] && (s + x)[1..] == s[1..] + x;
    if s[0] != '0' { DigitsExtend(s[1..], DigitValue(s[0]), x); }
  }

  lemma NumberExtend(s: string, x: string)
    requires ParseNumber(s).Done? && ParseNumber(s).rest != []
    ensures ParseNumber(s + x) == Done(ParseNumber(s).value, ParseNumber(s).rest + x)
  {
    assert s != [] && (s + x)[0] == s[0] && (s + x)[1..] == s[1..] + x;
    if s[0] == '-' { NatExtend(s[1..], x); } else { NatExtend(s, x); }
  }

  lemma LiteralExtend(s: string, x: string)
    requires ParseLiteral(s).Done?
    ensures ParseLiteral(s + x) == Done(ParseLiteral(s).value, ParseLiteral(s).rest + x)
  {
    if "null" <= s || "true" <= s {
      assert (s + x)[4..] == s[4..] + x;
      assert (s + x)[..4] == s[..4];
    } else {
      assert (s + x)[5..] == s[5..] + x;
      assert (s + x)[..5] == s[..5];
    }
  }

  lemma EscapeExtend(s: string, x: string)
    requires ParseEscape(s).Done?
    ensures ParseEscape(s + x) == Done(ParseEscape(s).value, ParseEscape(s).rest + x)
  {
    var t := s + x;
    assert t[0] == s[0] && t[1..] == s[1..] + x;
    if s[0] == 'u' {
      assert t[1] == s[1] && t[2] == s[2] && t[3] == s[3] && t[4] == s[4];
      assert t[5..] == s[5..] + x;
    }
  }

  lemma {:induction false} StringExtend(s: string, x: string)
    requires ParseString(s).Done?
    ensures ParseString(s + x) == Done(ParseString(s).value, ParseString(s).rest + x)
    decreases |s|
  {
    var t := s + x;
    assert t[0] == s[0] && t[1..] == s[1..] + x;
    if s[0] == '\"' {
    } else if s[0] == '\\' {
      EscapeExtend(s[1..], x);
      StringExtend(ParseEscape(s[1..]).rest, x);
    } else {
      StringExtend(s[1..], x);
    }
  }

  /** The value has an end of its own, or something after it. */
  predicate Ended(r: Parsed<Json>) { r.Done? && (r.rest != [] || !r.value.Num?) }

  lemma {:induction false} ValueExtend(s: string, x: string)
    requires Ended(ParseValue(s))
    ensures ParseValue(s + x) == Done(ParseValue(s).value, ParseValue(s).rest + x)
    decreases |s|, 2
  {
    var t := s + x;
    assert t[0] == s[0] && t[1..] == s[1..] + x;
    if s[0] == 'n' || s[0] == 't' || s[0] == 'f' {
      LiteralExtend(s, x);
    } else if s[0] == '\"' {
      StringExtend(s[1..], x);
    } else if s[0] == '[' {
      ArrayExtend(s[1..], x);
    } else if s[0] == '{' {
      ObjectExtend(s[1..], x);
    } else {
      NumberExtend(s, x);
    }
  }

  lemma {:induction false} ArrayExtend(s: string, x: string)
    requires ParseArray(s).Done?
    ensures ParseArray(s + x) == Done(ParseArray(s).value, ParseArray(s).rest + x)
    decreases |s|, 3
  {
    var t := s + x;
    if s[0] == ']' {
      assert t[0] == s[0] && t[1..] == s[1..] + x;
    } else {
      var rest := ParseValue(s).rest;
      assert t[0] == s[0];
      ValueExtend(s, x);
      ItemsExtend(rest, x);
    }
  }

  lemma {:induction false} ItemsExtend(s: string, x: string)
    requires ParseItems(s).Done?
    ensures ParseItems(s + x) == Done(ParseItems(s).value, ParseItems(s).rest + x)
    decreases |s|, 1
  {
    var t := s + x;
    assert t[0] == s[0] && t[1..] == s[1..] + x;
    if s[0] == ',' {
      ValueExtend(s[1..], x);
      ItemsExtend(ParseValue(s[1..]).rest, x);
    }
  }

  lemma {:induction false} ObjectExtend(s: string, x: string)
    requires ParseObject(s).Done?
    ensures ParseObject(s + x) == Done(ParseObject(s).value, ParseObject(s).rest + x)
    decreases |s|, 4
  {
    var t := s + x;
    if s[0] == '}' {
      assert t[0] == s[0] && t[1..] == s[1..] + x;
    } else {
      var (k, v) := ParseMember(s).value;
      assert t[0] == s[0];
      MembersHaveText(ParseMember(s).rest, map[k := v]);
      MemberExtend(s, x);
      MembersExtend(ParseMember(s).rest, map[k := v], x);
    }
  }

  lemma MembersHaveText(s: string, m: map<string, Json>)
    requires ParseMembers(s, m).Done?
    ensures s != []
  {
  }

  lemma {:induction false} MemberExtend(s: string, x: string)
    requires ParseMember(s).Done? && ParseMember(s).rest != []
    ensures ParseMember(s + x) == Done(ParseMember(s).value, ParseMember(s).rest + x)
    decreases |s|, 3
  {
    var t := s + x;
    assert t[0] == s[0] && t[1..] == s[1..] + x;
    StringExtend(s[1..], x);
    var mid := ParseString(s[1..]).rest;
    assert (mid + x)[0] == mid[0] && (mid + x)[1..] == mid[1..] + x;
    ValueExtend(mid[1..], x);
  }

  lemma {:induction false} MembersExtend(s: string, m: map<string, Json>, x: string)
    requires ParseMembers(s, m).Done?
    ensures ParseMembers(s + x, m) == Done(ParseMembers(s, m).value, ParseMembers(s, m).rest + x)
    decreases |s|, 1
  {
    var t := s + x;
    assert t[0] == s[0] && t[1..] == s[1..] + x;
    if s[0] == ',' {
      var (k, v) := ParseMember(s[1..]).value;
      MembersHaveText(ParseMember(s[1..]).rest, m[k := v]);
      MemberExtend(s[1..], x);
      MembersExtend(ParseMember(s[1..]).rest, m[k := v], x);
    }
  }

  /** Anything written after a complete row spoils it. */
  lemma TrailingText(s: string, x: string)
    requires Parse(s).Some? && !Parse(s).value.Num? && x != []
    ensures Parse(s + x) == None
  {
    ValueExtend(s, x);
  }
}
