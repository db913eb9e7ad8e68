/** What canonical JSON looks like, and the text of a ledger's row. */
module CanonicalFormat {
  import opened Ordering
  import opened CanonicalJson
  import opened HmacChain
  import opened ConversationLedger

  // ---- numbers ----

  /** The number that decimal digits stand for. */
  ghost function Decimal(t: string): int {
    if t == [] then 0 else 10 * Decimal(t[..|t| - 1]) + (t[|t| - 1] as int - '0' as int)
  }

  ghost predicate Numeral(t: string, n: nat) {
    && t != [] && (forall i :: 0 <= i < |t| ==> '0' <= t[i] <= '9') && Decimal(t) == n
    && (|t| > 1 ==> t[0] != '0')
  }

  lemma {:induction false} NumeralExactly(n: nat)
    ensures Numeral(NatText(n), n)
  {
    var t := NatText(n);
    if n >= 10 {
      NumeralExactly(n / 10);
      assert t[..|t| - 1] == NatText(n / 10);
      assert t[|t| - 1] as int - '0' as int == n % 10;
    } else {
      assert t[..0] == [];
    }
  }

  // ---- texts ----

  /** A character in a string: the two that delimit and escape behind a backslash, the controls by their letter or
      their code, and every other one as it is. */
  ghost predicate Escapes(c: char, t: string) {
    var short := map['\"' := '\"', '\\' := '\\', '\n' := 'n', '\r' := 'r', '\t' := 't', 8 as char := 'b',
                     12 as char := 'f'];
    if c in short then t == ['\\', short[c]]
    else if c as int < 32 then
      |t| == 6 && t[..4] == "\\u00" && t[4] == (if c as int < 16 then '0' else '1') && t[5] in "0123456789abcdef"
      && HexValue(t[5]) == c as int % 16
    else t == [c]
  }

  lemma EscapeExactly(c: char)
    ensures Escapes(c, EscapeChar(c))
  {
    if c < ' ' {
      var d := HexDigit(c as int % 16);
      assert HexDigit(c as int / 16) == if c as int < 16 then '0' else '1';
      assert d in "0123456789abcdef" by { HexDigitIsListed(c as int % 16); }
    }
  }

  lemma HexDigitIsListed(d: nat)
    requires d < 16
    ensures HexDigit(d) in "0123456789abcdef"
  {
    var all := "0123456789abcdef";
    assert all[d] == HexDigit(d);
  }

  ghost function Concat(parts: seq<string>): string { if parts == [] then "" else parts[0] + Concat(parts[1..]) }

  /** A string: the escaped characters between quotation marks. */
  ghost predicate Quotes(s: string, t: string) {
    exists parts :: AreEscapes(s, parts) && t == "\"" + Concat(parts) + "\""
  }

  ghost predicate AreEscapes(s: string, parts: seq<string>) {
    |parts| == |s| && forall i :: 0 <= i < |s| ==> Escapes(s[i], parts[i])
  }

  lemma {:induction false} EscapesExactly(s: string) returns (parts: seq<string>)
    ensures AreEscapes(s, parts) && Escape(s) == Concat(parts)
  {
    parts := [];
    if s != [] {
      var rest := EscapesExactly(s[1..]);
      EscapeExactly(s[0]);
      parts := [EscapeChar(s[0])] + rest;
      assert parts[1..] == rest;
    }
  }

  lemma QuoteExactly(s: string)
    ensures Quotes(s, Quote(s))
  {
    var parts := EscapesExactly(s);
  }

  // ---- arrays and objects ----

  /** The parts with commas between them. */
  ghost function Joined(parts: seq<string>): string {
    if parts == [] then "" else if |parts| == 1 then parts[0] else parts[0] + "," + Joined(parts[1..])
  }

  ghost function Printed(items: seq<Json>): (r: seq<string>)
    ensures |r| == |items| && forall i :: 0 <= i < |items| ==> r[i] == Print(items[i])
  {
    seq(|items|, i requires 0 <= i < |items| => Print(items[i]))
  }

  lemma Comma(first: string, next: string, later: string, joined: string, close: string)
    requires next + later == joined + close
    ensures first + ("," + next + later) == first + "," + joined + close
  {
    assert "," + next + later == "," + (next + later);
    assert first + ("," + (joined + close)) == first + "," + joined + close;
  }

  lemma {:induction false} ItemsExactly(items: seq<Json>)
    requires items != []
    ensures Print(items[0]) + PrintItems(items[1..]) == Joined(Printed(items)) + "]"
  {
    var rest := items[1..];
    assert Printed(items)[1..] == Printed(rest);
    if rest != [] {
      ItemsExactly(rest);
      Comma(Print(items[0]), Print(rest[0]), PrintItems(rest[1..]), Joined(Printed(rest)), "]");
    } else {
      assert Printed(items) == [Print(items[0])];
    }
  }

  ghost function Members(v: Json, ks: seq<string>): (r: seq<string>)
    requires v.Obj? && forall k :: k in ks ==> k in v.fields
    ensures |r| == |ks| && forall i :: 0 <= i < |ks| ==> r[i] == Quote(ks[i]) + ":" + Print(v.fields[ks[i]])
  {
    seq(|ks|, i requires 0 <= i < |ks| => assert ks[i] in ks; Quote(ks[i]) + ":" + Print(v.fields[ks[i]]))
  }

  lemma MembersOfMore(v: Json, ks: seq<string>)
    requires v.Obj? && ks != [] && forall k :: k in ks ==> k in v.fields
    ensures Members(v, ks) == [PrintMember(v, ks[0])] + Members(v, ks[1..])
  {
  }

  lemma {:induction false} MembersExactly(v: Json, ks: seq<string>)
    requires v.Obj? && ks != [] && forall k :: k in ks ==> k in v.fields
    ensures PrintMember(v, ks[0]) + PrintMembers(v, ks[1..]) == Joined(Members(v, ks)) + "}"
  {
    var rest := ks[1..];
    MembersOfMore(v, ks);
    var first, others := PrintMember(v, ks[0]), Members(v, rest);
    assert ([first] + others)[1..] == others;
    if rest != [] {
      MembersExactly(v, rest);
      Comma(first, PrintMember(v, rest[0]), PrintMembers(v, rest[1..]), Joined(others), "}");
    } else {
      assert others == [] && [first] + others == [first];
    }
  }

  /** Each key once, in the order of their characters. */
  ghost predicate ListsKeys(fields: map<string, Json>, ks: seq<string>) {
    (forall k :: k in ks <==> k in fields)
    && forall i, j :: 0 <= i < j < |ks| ==> ks[i] != ks[j] && Precedes(ks[i], ks[j])
  }

  /** The canonical form of every value. */
  ghost predicate Canonical(v: Json, t: string) {
    match v
    case Null => t == "null"
    case Bool(b) => t == if b then "true" else "false"
    case Num(n) => if n >= 0 then Numeral(t, n) else t != [] && t[0] == '-' && Numeral(t[1..], -n)
    case Str(s) => Quotes(s, t)
    case Arr(items) => t == "[" + Joined(Printed(items)) + "]"
    case Obj(fields) => exists ks :: ListsKeys(fields, ks) && t == "{" + Joined(Members(v, ks)) + "}"
  }

  lemma PrintExactly(v: Json)
    ensures Canonical(v, Print(v))
  {
    match v
    case Num(n) => NumberExactly(n);
    case Str(s) => QuoteExactly(s);
    case Arr(items) => ArrayExactly(items);
    case Obj(fields) => ObjectExactly(v);
    case _ =>
  }

  lemma NumberExactly(n: int)
    ensures Canonical(Num(n), Print(Num(n)))
  {
    NumeralExactly(if n >= 0 then n else -n);
    if n < 0 { assert IntText(n)[1..] == NatText(-n); }
  }

  lemma ArrayExactly(items: seq<Json>)
    ensures Print(Arr(items)) == "[" + Joined(Printed(items)) + "]"
  {
    if items != [] {
      ItemsExactly(items);
      assert Print(Arr(items)) == "[" + (Print(items[0]) + PrintItems(items[1..]));
    } else {
      assert "[" + "" + "]" == "[]";
    }
  }

  lemma ObjectExactly(v: Json)
    requires v.Obj?
    ensures ListsKeys(v.fields, Keys(v)) && Print(v) == "{" + Joined(Members(v, Keys(v))) + "}"
  {
    KeysExactly(v);
    MembersText(v, Keys(v), PrintObject(v, Keys(v)));
  }

  lemma MembersText(v: Json, ks: seq<string>, inner: string)
    requires v.Obj? && (forall k :: k in ks ==> k in v.fields) && inner == PrintObject(v, ks)
    ensures "{" + inner == "{" + Joined(Members(v, ks)) + "}"
  {
    var joined := Joined(Members(v, ks));
    if ks != [] { MembersExactly(v, ks); } else { assert joined == ""; }
    assert inner == joined + "}";
    assert "{" + (joined + "}") == "{" + joined + "}";
  }

  lemma KeysExactly(v: Json)
    requires v.Obj?
    ensures ListsKeys(v.fields, Keys(v))
  {
    StrLeqIsTotalOrder();
    var ks := Keys(v);
    forall i, j | 0 <= i < j < |ks| ensures ks[i] != ks[j] && Precedes(ks[i], ks[j]) { StrLeqExactly(ks[i], ks[j]); }
  }

  /** There is only one such listing. */
  lemma OneListing(fields: map<string, Json>, a: seq<string>, b: seq<string>)
    requires ListsKeys(fields, a) && ListsKeys(fields, b)
    ensures a == b
  {
    StrLeqIsTotalOrder();
    forall ks | ks in {a, b} ensures Sorted(ks, StrLeq) && Distinct(ks) {
      forall i, j | 0 <= i < j < |ks| ensures StrLeq(ks[i], ks[j]) { StrLeqExactly(ks[i], ks[j]); }
    }
    SortedUnique(a, b, StrLeq);
  }

  // ---- the line of a row ----

  lemma SmallerFirst(a: string, b: string)
    requires a != [] && b != [] && a[0] < b[0]
    ensures a != b && Precedes(a, b)
  {
    assert a[..0] == b[..0] == [];
  }

  /** The text of an envelope: its six fields, in this order. */
  lemma EnvelopeText(mac: Mac, name: string, sequence: nat, previous: string, payload: Row, ks: seq<string>)
    requires ks == ["hmac_sha256", "log_name", "payload", "previous_hmac", "schema_version", "sequence"]
    ensures var row := Envelope(mac, name, sequence, previous, payload);
            && (forall k :: k in ks <==> k in row)
            && Print(Obj(row)) == "{" + Joined(Members(Obj(row), ks)) + "}"
  {
    var row := Envelope(mac, name, sequence, previous, payload);
    EnvelopeKeys(row, ks, mac, name, sequence, previous, payload);
    ObjectText(row, ks);
  }

  /** The text of an object whose keys are these, in order. */
  lemma ObjectText(row: Row, ks: seq<string>)
    requires ListsKeys(row, ks) && ks != []
    ensures Print(Obj(row)) == "{" + Joined(Members(Obj(row), ks)) + "}"
  {
    ObjectExactly(Obj(row));
    OneListing(row, Keys(Obj(row)), ks);
  }

  lemma EnvelopeKeys(row: Row, ks: seq<string>, mac: Mac, name: string, sequence: nat, previous: string, payload: Row)
    requires row == Envelope(mac, name, sequence, previous, payload)
    requires ks == ["hmac_sha256", "log_name", "payload", "previous_hmac", "schema_version", "sequence"]
    ensures ListsKeys(row, ks)
  {
    assert row.Keys == {"schema_version", "log_name", "sequence", "previous_hmac", "payload", "hmac_sha256"};
    SecondLetter("payload", "previous_hmac");
    SecondLetter("schema_version", "sequence");
    forall i, j | 0 <= i < j < 6 ensures ks[i] != ks[j] && Precedes(ks[i], ks[j]) {
      if ks[i][0] != ks[j][0] { SmallerFirst(ks[i], ks[j]); }
    }
  }

  lemma SecondLetter(a: string, b: string)
    requires |a| > 1 && |b| > 1 && a[0] == b[0] && a[1] < b[1]
    ensures a != b && Precedes(a, b)
  {
    assert a[..1] == b[..1];
  }
}
