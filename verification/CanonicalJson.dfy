/** The JSON that the ledgers and snapshots write and read back:
    `json.dumps(value, ensure_ascii=False, sort_keys=True, separators=(",", ":"))` and
    `json.loads`, on null, booleans, integers, strings, arrays and objects. */
module CanonicalJson {
  import opened Ordering

  datatype Json =
    | Null
    | Bool(b: bool)
    | Num(n: int)
    | Str(s: string)
    | Arr(items: seq<Json>)
    | Obj(fields: map<string, Json>)

  // ---- printing ----

  function HexDigit(d: nat): (c: char)
    requires d < 16
    ensures d < 10 ==> IsDigit(c) && DigitValue(c) == d
    ensures HexValue(c) == d && c >= ' '
  {
    if d < 10 then (d + '0' as int) as char else (d - 10 + 'a' as int) as char
  }

  function NatText(n: nat): (t: string)
    ensures t != [] && forall c | c in t :: '0' <= c <= '9'
    ensures n > 0 ==> t[0] != '0'
  {
    if n < 10 then [HexDigit(n)] else NatText(n / 10) + [HexDigit(n % 10)]
  }

  function IntText(n: int): string {
    if n < 0 then "-" + NatText(-n) else NatText(n)
  }

  /** Section 7 of RFC 8259: only the quotation mark, the backslash and U+0000..U+001F
      are escaped; the short forms are the ones Python's encoder picks. */
  function EscapeChar(c: char): string {
    if c == '\"' then "\\\""
    else if c == '\\' then "\\\\"
    else if c == '\n' then "\\n"
    else if c == '\r' then "\\r"
    else if c == '\t' then "\\t"
    else if c == 8 as char then "\\b"
    else if c == 12 as char then "\\f"
    else if c < ' ' then "\\u00" + [HexDigit(c as int / 16), HexDigit(c as int % 16)]
    else [c]
  }

  function Escape(s: string): string {
    if s == [] then [] else EscapeChar(s[0]) + Escape(s[1..])
  }

  function Quote(s: string): string { "\"" + Escape(s) + "\"" }

  function Keys(v: Json): (ks: seq<string>)
    requires v.Obj?
    ensures forall k :: k in ks <==> k in v.fields
    ensures Distinct(ks)
  {
    StrLeqIsTotalOrder();
    SortSet(v.fields.Keys, StrLeq)
  }

  /** canonical_json */
  function Print(v: Json): string
    decreases v, 1
  {
    match v
    case Null => "null"
    case Bool(b) => if b then "true" else "false"
    case Num(n) => IntText(n)
    case Str(s) => Quote(s)
    case Arr(items) => "[" + PrintArray(items)
    case Obj(_) => "{" + PrintObject(v, Keys(v))
  }

  function PrintArray(items: seq<Json>): string
    decreases items, 1
  {
    if items == [] then "]" else Print(items[0]) + PrintItems(items[1..])
  }

  /** The rest of an array, from the comma before its next element to the closing bracket. */
  function PrintItems(items: seq<Json>): string
    decreases items, 0
  {
    if items == [] then "]" else "," + Print(items[0]) + PrintItems(items[1..])
  }

  function PrintMember(v: Json, k: string): string
    requires v.Obj? && k in v.fields
    decreases v, 0, 0
  {
    Quote(k) + ":" + Print(v.fields[k])
  }

  function PrintObject(v: Json, ks: seq<string>): string
    requires v.Obj? && forall k :: k in ks ==> k in v.fields
    decreases v, 0, |ks| + 2
  {
    if ks == [] then "}" else PrintMember(v, ks[0]) + PrintMembers(v, ks[1..])
  }

  function PrintMembers(v: Json, ks: seq<string>): string
    requires v.Obj? && forall k :: k in ks ==> k in v.fields
    decreases v, 0, |ks| + 1
  {
    if ks == [] then "}" else "," + PrintMember(v, ks[0]) + PrintMembers(v, ks[1..])
  }

  // ---- parsing ----

  datatype Parsed<+T> = Fail | Done(value: T, rest: string) {
    predicate IsFailure() { Fail? }
    function PropagateFailure<U>(): Parsed<U> requires Fail? { Fail }
    function Extract(): (T, string) requires Done? { (value, rest) }
  }

  predicate IsDigit(c: char) { '0' <= c <= '9' }

  function DigitValue(c: char): nat
    requires IsDigit(c)
  {
    c as int - '0' as int
  }

  function HexValue(c: char): (r: int)
    ensures -1 <= r < 16
  {
    if IsDigit(c) then DigitValue(c)
    else if 'a' <= c <= 'f' then c as int - 'a' as int + 10
    else if 'A' <= c <= 'F' then c as int - 'A' as int + 10
    else -1
  }

  function ParseDigits(s: string, acc: nat): (r: (nat, string))
    ensures |r.1| <= |s|
  {
    if s != [] && IsDigit(s[0]) then ParseDigits(s[1..], 10 * acc + DigitValue(s[0])) else (acc, s)
  }

  /** A leading zero ends the number, as in the grammar of section 6 of RFC 8259. */
  function ParseNat(s: string): (r: Parsed<nat>)
    ensures r.Done? ==> |r.rest| < |s|
  {
    if s == [] || !IsDigit(s[0]) then Fail
    else if s[0] == '0' then Done(0, s[1..])
    else var r := ParseDigits(s[1..], DigitValue(s[0])); Done(r.0, r.1)
  }

  function ParseEscape(s: string): (r: Parsed<char>)
    ensures r.Done? ==> |r.rest| < |s|
  {
    if s == [] then Fail
    else match s[0]
      case '\"' => Done('\"', s[1..])
      case '\\' => Done('\\', s[1..])
      case '/' => Done('/', s[1..])
      case 'b' => Done(8 as char, s[1..])
      case 'f' => Done(12 as char, s[1..])
      case 'n' => Done('\n', s[1..])
      case 'r' => Done('\r', s[1..])
      case 't' => Done('\t', s[1..])
      case 'u' => ParseHex(s)
      case _ => Fail
  }

  function ParseHex(s: string): (r: Parsed<char>)
    requires s != []
    ensures r.Done? ==> |r.rest| < |s|
  {
    if |s| < 5 then Fail else
      var a, b, c, d := HexValue(s[1]), HexValue(s[2]), HexValue(s[3]), HexValue(s[4]);
      if a < 0 || b < 0 || c < 0 || d < 0 then Fail else
        var code := 4096 * a + 256 * b + 16 * c + d;
        if 0xD800 <= code < 0xE000 then Fail else Done(code as char, s[5..])
  }

  /** The inside of a string, after its opening quotation mark. */
  function ParseString(s: string): (r: Parsed<string>)
    ensures r.Done? ==> |r.rest| < |s|
    decreases |s|
  {
    if s == [] || s[0] < ' ' then Fail
    else if s[0] == '\"' then Done("", s[1..])
    else if s[0] == '\\' then
      var (c, rest) :- ParseEscape(s[1..]);
      var (cs, rest') :- ParseString(rest);
      Done([c] + cs, rest')
    else
      var (cs, rest) :- ParseString(s[1..]);
      Done([s[0]] + cs, rest)
  }

  function ParseLiteral(s: string): (r: Parsed<Json>)
    ensures r.Done? ==> |r.rest| < |s|
  {
    if "null" <= s then Done(Null, s[4..])
    else if "true" <= s then Done(Bool(true), s[4..])
    else if "false" <= s then Done(Bool(false), s[5..])
    else Fail
  }

  function ParseNumber(s: string): (r: Parsed<Json>)
    ensures r.Done? ==> |r.rest| < |s|
  {
    if s != [] && s[0] == '-' then
      var (n, rest) :- ParseNat(s[1..]);
      Done(Num(-(n as int)), rest)
    else
      var (n, rest) :- ParseNat(s);
      Done(Num(n), rest)
  }

  function ParseValue(s: string): (r: Parsed<Json>)
    ensures r.Done? ==> |r.rest| < |s|
    decreases |s|, 2
  {
    if s == [] then Fail
    else if s[0] == 'n' || s[0] == 't' || s[0] == 'f' then ParseLiteral(s)
    else if s[0] == '\"' then
      var (t, rest) :- ParseString(s[1..]);
      Done(Str(t), rest)
    else if s[0] == '[' then ParseArray(s[1..])
    else if s[0] == '{' then ParseObject(s[1..])
    else ParseNumber(s)
  }

  function ParseArray(s: string): (r: Parsed<Json>)
    ensures r.Done? ==> |r.rest| < |s|
    decreases |s|, 3
  {
    if s != [] && s[0] == ']' then Done(Arr([]), s[1..]) else
      var (x, rest) :- ParseValue(s);
      var (xs, rest') :- ParseItems(rest);
      Done(Arr([x] + xs), rest')
  }

  function ParseObject(s: string): (r: Parsed<Json>)
    ensures r.Done? ==> |r.rest| < |s|
    decreases |s|, 4
  {
    if s != [] && s[0] == '}' then Done(Obj(map[]), s[1..]) else
      var (kv, rest) :- ParseMember(s);
      var (m, rest') :- ParseMembers(rest, map[kv.0 := kv.1]);
      Done(Obj(m), rest')
  }

  function ParseItems(s: string): (r: Parsed<seq<Json>>)
    ensures r.Done? ==> |r.rest| < |s|
    decreases |s|, 1
  {
    if s == [] then Fail
    else if s[0] == ']' then Done([], s[1..])
    else if s[0] == ',' then
      var (x, rest) :- ParseValue(s[1..]);
      var (xs, rest') :- ParseItems(rest);
      Done([x] + xs, rest')
    else Fail
  }

  function ParseMember(s: string): (r: Parsed<(string, Json)>)
    ensures r.Done? ==> |r.rest| < |s|
    decreases |s|, 3
  {
    if s == [] || s[0] != '\"' then Fail else
      var (k, rest) :- ParseString(s[1..]);
      if rest == [] || rest[0] != ':' then Fail else
        var (v, rest') :- ParseValue(rest[1..]);
        Done((k, v), rest')
  }

  /** A repeated key keeps its last value, as a Python dictionary does. */
  function ParseMembers(s: string, m: map<string, Json>): (r: Parsed<map<string, Json>>)
    ensures r.Done? ==> |r.rest| < |s|
    decreases |s|, 1
  {
    if s == [] then Fail
    else if s[0] == '}' then Done(m, s[1..])
    else if s[0] == ',' then
      var (kv, rest) :- ParseMember(s[1..]);
      ParseMembers(rest, m[kv.0 := kv.1])
    else Fail
  }

  datatype Option<+T> = None | Some(value: T)

  /** json.loads: one value and nothing after it. */
  function Parse(s: string): Option<Json> {
    match ParseValue(s)
    case Done(v, rest) => if rest == [] then Some(v) else None
    case Fail => None
  }

  // ---- printing, then parsing ----

  /** What may follow a printed value without changing how it reads. */
  predicate Stops(rest: string) { rest == [] || !IsDigit(rest[0]) }

  lemma {:induction false} DigitsRoundTrip(n: nat, rest: string)
    ensures ParseDigits(NatText(n) + rest, 0) == ParseDigits(rest, n)
  {
    if n < 10 {
      assert (NatText(n) + rest)[1..] == rest;
      assert DigitValue(HexDigit(n)) == n;
    } else {
      var d := [HexDigit(n % 10)];
      assert NatText(n) + rest == NatText(n / 10) + (d + rest);
      DigitsRoundTrip(n / 10, d + rest);
      assert (d + rest)[1..] == rest;
      assert DigitValue(d[0]) == n % 10;
    }
  }

  lemma NatRoundTrip(n: nat, rest: string)
    requires Stops(rest)
    ensures ParseNat(NatText(n) + rest) == Done(n, rest)
  {
    var s := NatText(n) + rest;
    assert s[0] == NatText(n)[0];
    if n == 0 {
      assert s[1..] == rest;
    } else {
      DigitsRoundTrip(n, rest);
      assert ParseDigits(s, 0) == ParseDigits(s[1..], DigitValue(s[0]));
    }
  }

  lemma ControlRoundTrip(c: char, u: string, t: string)
    requires c < ' ' && u == "u00" + [HexDigit(c as int / 16), HexDigit(c as int % 16)] + t
    ensures ParseEscape(u) == Done(c, t)
  {
    assert u[0] == 'u' && u[1] == '0' && u[2] == '0';
    assert u[3] == HexDigit(c as int / 16) && u[4] == HexDigit(c as int % 16);
    assert HexValue(u[3]) == c as int / 16 && HexValue(u[4]) == c as int % 16;
    assert u[5..] == t;
  }

  lemma EscapeCharRoundTrip(c: char, t: string)
    ensures ParseString(EscapeChar(c) + t) ==
            match ParseString(t) case Done(cs, rest) => Done([c] + cs, rest) case Fail => Fail
  {
    var e := EscapeChar(c);
    var s := e + t;
    assert s[0] == e[0];
    if e == [c] {
      assert s[1..] == t;
    } else if |e| == 2 {
      assert s[1..][0] == e[1] && s[1..][1..] == t;
    } else {
      ControlRoundTrip(c, s[1..], t);
    }
  }

  lemma {:induction false} StringRoundTrip(s: string, rest: string)
    ensures ParseString(Escape(s) + "\"" + rest) == Done(s, rest)
  {
    if s == [] {
      assert Escape(s) + "\"" + rest == "\"" + rest;
    } else {
      var t := Escape(s[1..]) + "\"" + rest;
      assert Escape(s) + "\"" + rest == EscapeChar(s[0]) + t;
      StringRoundTrip(s[1..], rest);
      EscapeCharRoundTrip(s[0], t);
      assert s == [s[0]] + s[1..];
    }
  }

  lemma NumberStep(s: string, n: nat, rest: string)
    requires s != []
    ensures s[0] == '-' && ParseNat(s[1..]) == Done(n, rest) ==> ParseNumber(s) == Done(Num(-(n as int)), rest)
    ensures s[0] != '-' && ParseNat(s) == Done(n, rest) ==> ParseNumber(s) == Done(Num(n), rest)
  {
  }

  lemma NumberRoundTrip(n: int, rest: string)
    requires Stops(rest)
    ensures ParseNumber(IntText(n) + rest) == Done(Num(n), rest)
  {
    var s := IntText(n) + rest;
    if n < 0 {
      assert s[1..] == NatText(-n) + rest;
      NatRoundTrip(-n, rest);
      NumberStep(s, -n, rest);
    } else {
      assert s[0] == NatText(n)[0];
      NatRoundTrip(n, rest);
      NumberStep(s, n, rest);
    }
  }

  /** The first character of a value decides how it is read. */
  lemma Dispatch(s: string)
    requires s != []
    ensures s[0] == '-' || IsDigit(s[0]) ==> ParseValue(s) == ParseNumber(s)
    ensures s[0] == '[' ==> ParseValue(s) == ParseArray(s[1..])
    ensures s[0] == '{' ==> ParseValue(s) == ParseObject(s[1..])
  {
  }

  lemma LiteralRoundTrip(v: Json, rest: string)
    requires v.Null? || v.Bool?
    ensures ParseValue(Print(v) + rest) == Done(v, rest)
  {
    var s := Print(v) + rest;
    assert s[0] == Print(v)[0];
    assert if v == Bool(false) then s[5..] == rest else s[4..] == rest;
  }

  lemma NumRoundTrip(n: int, rest: string)
    requires Stops(rest)
    ensures ParseValue(IntText(n) + rest) == Done(Num(n), rest)
  {
    var s := IntText(n) + rest;
    NumberStart(n);
    assert s[0] == IntText(n)[0];
    Dispatch(s);
    NumberRoundTrip(n, rest);
  }

  lemma StrStep(s: string, t: string, rest: string)
    requires s != [] && s[0] == '\"' && ParseString(s[1..]) == Done(t, rest)
    ensures ParseValue(s) == Done(Str(t), rest)
  {
  }

  lemma StrRoundTrip(t: string, rest: string)
    ensures ParseValue(Quote(t) + rest) == Done(Str(t), rest)
  {
    var s := Quote(t) + rest;
    assert s[1..] == Escape(t) + "\"" + rest;
    StringRoundTrip(t, rest);
    StrStep(s, t, rest);
  }

  lemma {:induction false} ValueRoundTrip(v: Json, rest: string)
    requires Stops(rest)
    ensures ParseValue(Print(v) + rest) == Done(v, rest)
    decreases v, 1
  {
    match v {
      case Arr(items) => ArrayRoundTrip(items, rest);
      case Obj(_) =>
        var ks := Keys(v);
        ObjectRoundTrip(v, ks, rest);
      case Null => LiteralRoundTrip(v, rest);
      case Bool(_) => LiteralRoundTrip(v, rest);
      case Num(n) => NumRoundTrip(n, rest);
      case Str(t) => StrRoundTrip(t, rest);
    }
  }

  lemma {:induction false} ArrayRoundTrip(items: seq<Json>, rest: string)
    ensures ParseValue("[" + PrintArray(items) + rest) == Done(Arr(items), rest)
    decreases items, 1
  {
    var s := "[" + PrintArray(items) + rest;
    var t := s[1..];
    Dispatch(s);
    if items == [] {
      assert t[1..] == rest;
    } else {
      var tail := PrintItems(items[1..]) + rest;
      assert t == Print(items[0]) + tail;
      PrintStart(items[0]);
      ValueRoundTrip(items[0], tail);
      ItemsRoundTrip(items[1..], rest);
      ArrayStep(t, items[0], tail, items[1..], rest);
      assert items == [items[0]] + items[1..];
    }
  }

  lemma ArrayStep(t: string, x: Json, tail: string, xs: seq<Json>, rest: string)
    requires t != [] && t[0] != ']' && ParseValue(t) == Done(x, tail) && ParseItems(tail) == Done(xs, rest)
    ensures ParseArray(t) == Done(Arr([x] + xs), rest)
  {
  }

  lemma NumberStart(n: int)
    ensures IntText(n) != [] && (IntText(n)[0] == '-' || IsDigit(IntText(n)[0]))
  {
    assert n >= 0 ==> NatText(n)[0] in NatText(n);
  }

  /** No printed value begins with a closing bracket. */
  lemma PrintStart(v: Json)
    ensures Print(v) != [] && Print(v)[0] != ']'
  {
    if v.Num? { NumberStart(v.n); }
  }

  lemma {:induction false} ItemsRoundTrip(items: seq<Json>, rest: string)
    ensures ParseItems(PrintItems(items) + rest) == Done(items, rest)
    decreases items, 0
  {
    var s := PrintItems(items) + rest;
    if items == [] {
      assert s[1..] == rest;
    } else {
      var tail := PrintItems(items[1..]) + rest;
      assert s[1..] == Print(items[0]) + tail;
      ValueRoundTrip(items[0], tail);
      ItemsRoundTrip(items[1..], rest);
      assert items == [items[0]] + items[1..];
    }
  }

  lemma ObjectStep(s: string, k: string, v: Json, mid: string, m: map<string, Json>, rest: string)
    requires s != [] && s[0] == '\"'
    requires ParseMember(s) == Done((k, v), mid) && ParseMembers(mid, map[k := v]) == Done(m, rest)
    ensures ParseObject(s) == Done(Obj(m), rest)
  {
  }

  lemma {:induction false} ObjectRoundTrip(v: Json, ks: seq<string>, rest: string)
    requires v.Obj? && forall k :: k in ks <==> k in v.fields
    ensures ParseValue("{" + PrintObject(v, ks) + rest) == Done(v, rest)
    decreases v, 0, |ks| + 3
  {
    var s := PrintObject(v, ks) + rest;
    var t := "{" + PrintObject(v, ks) + rest;
    assert t[1..] == s;
    Dispatch(t);
    if ks == [] {
      EmptyObject(v, s, rest);
    } else {
      ObjectBodyRoundTrip(v, ks[0], ks[1..], s, rest);
    }
  }

  lemma EmptyObject(v: Json, s: string, rest: string)
    requires v.Obj? && (forall k :: k !in v.fields) && s == "}" + rest
    ensures ParseObject(s) == Done(v, rest)
  {
    assert v.fields == map[] && s[1..] == rest;
  }

  lemma {:induction false} ObjectBodyRoundTrip(v: Json, k: string, ks: seq<string>, s: string, rest: string)
    requires v.Obj? && k in v.fields && forall x :: x in ks ==> x in v.fields
    requires forall x :: x in v.fields ==> x == k || x in ks
    requires s == PrintMember(v, k) + PrintMembers(v, ks) + rest
    ensures ParseObject(s) == Done(v, rest)
    decreases v, 0, |ks| + 3
  {
    var x, tail := v.fields[k], PrintMembers(v, ks) + rest;
    assert s == PrintMember(v, k) + tail;
    assert s[0] == PrintMember(v, k)[0];
    MemberRoundTrip(v, k, tail);
    MembersRoundTrip(v, ks, map[k := x], rest);
    ObjectStep(s, k, x, tail, v.fields, rest);
  }

  lemma MemberStep(s: string, k: string, mid: string, v: Json, rest: string)
    requires s != [] && s[0] == '\"' && ParseString(s[1..]) == Done(k, mid)
    requires mid != [] && mid[0] == ':' && ParseValue(mid[1..]) == Done(v, rest)
    ensures ParseMember(s) == Done((k, v), rest)
  {
  }

  lemma {:induction false} MemberRoundTrip(v: Json, k: string, rest: string)
    requires v.Obj? && k in v.fields && Stops(rest)
    ensures ParseMember(PrintMember(v, k) + rest) == Done((k, v.fields[k]), rest)
    decreases v, 0, 0
  {
    var x := v.fields[k];
    var s, tail := PrintMember(v, k) + rest, ":" + (Print(x) + rest);
    assert s == Quote(k) + tail;
    assert s[1..] == Escape(k) + "\"" + tail;
    StringRoundTrip(k, tail);
    assert tail[1..] == Print(x) + rest;
    ValueRoundTrip(x, rest);
    MemberStep(s, k, tail, x, rest);
  }

  lemma MembersStep(s: string, m: map<string, Json>, k: string, v: Json, mid: string)
    requires s != [] && s[0] == ',' && ParseMember(s[1..]) == Done((k, v), mid)
    ensures ParseMembers(s, m) == ParseMembers(mid, m[k := v])
  {
  }

  lemma {:induction false} MembersRoundTrip(v: Json, ks: seq<string>, m: map<string, Json>, rest: string)
    requires v.Obj? && forall k :: k in ks ==> k in v.fields
    requires forall k :: k in m ==> k in v.fields && m[k] == v.fields[k]
    requires forall k :: k in v.fields ==> k in m || k in ks
    ensures ParseMembers(PrintMembers(v, ks) + rest, m) == Done(v.fields, rest)
    decreases v, 0, |ks| + 1
  {
    var s := PrintMembers(v, ks) + rest;
    if ks == [] {
      assert m == v.fields;
      assert s[1..] == rest;
    } else {
      var k, tail := ks[0], PrintMembers(v, ks[1..]) + rest;
      assert s[1..] == PrintMember(v, k) + tail;
      MemberRoundTrip(v, k, tail);
      MembersStep(s, m, k, v.fields[k], tail);
      MembersRoundTrip(v, ks[1..], m[k := v.fields[k]], rest);
    }
  }

  /** json.loads undoes canonical_json on every value. */
  lemma RoundTrip(v: Json)
    ensures Parse(Print(v)) == Some(v)
  {
    assert Print(v) + [] == Print(v);
    ValueRoundTrip(v, []);
  }

  /** Equal texts come from equal values: what makes a digest of the text identify the value. */
  lemma PrintInjective(v: Json, w: Json)
    requires Print(v) == Print(w)
    ensures v == w
  {
    RoundTrip(v);
    RoundTrip(w);
  }

  // ---- printed text holds no raw line break ----

  ghost predicate NoControl(s: string) { forall c | c in s :: c >= ' ' }

  lemma {:induction false} EscapeNoControl(s: string)
    ensures NoControl(Escape(s))
  {
    if s != [] { EscapeNoControl(s[1..]); }
  }

  lemma {:induction false} PrintNoControl(v: Json)
    ensures NoControl(Print(v))
    decreases v, 1
  {
    match v {
      case Str(s) => EscapeNoControl(s);
      case Arr(items) =>
        if items != [] { PrintNoControl(items[0]); ItemsNoControl(items[1..]); }
      case Obj(_) =>
        var ks := Keys(v);
        ObjectNoControl(v, ks);
      case _ =>
    }
  }

  lemma {:induction false} ObjectNoControl(v: Json, ks: seq<string>)
    requires v.Obj? && forall k :: k in ks ==> k in v.fields
    ensures NoControl(PrintObject(v, ks))
    decreases v, 0, |ks| + 2
  {
    if ks != [] { MemberNoControl(v, ks[0]); MembersNoControl(v, ks[1..]); }
  }

  lemma {:induction false} ItemsNoControl(items: seq<Json>)
    ensures NoControl(PrintItems(items))
    decreases items, 0
  {
    if items != [] { PrintNoControl(items[0]); ItemsNoControl(items[1..]); }
  }

  lemma {:induction false} MemberNoControl(v: Json, k: string)
    requires v.Obj? && k in v.fields
    ensures NoControl(PrintMember(v, k))
    decreases v, 0, 0
  {
    EscapeNoControl(k);
    PrintNoControl(v.fields[k]);
  }

  lemma {:induction false} MembersNoControl(v: Json, ks: seq<string>)
    requires v.Obj? && forall k :: k in ks ==> k in v.fields
    ensures NoControl(PrintMembers(v, ks))
    decreases v, 0, |ks| + 1
  {
    if ks != [] { MemberNoControl(v, ks[0]); MembersNoControl(v, ks[1..]); }
  }
}
