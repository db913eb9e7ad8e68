module Text {
  /** What Python's `str.strip` removes. */
  predicate IsSpace(c: char) {
    var n := c as int;
    9 <= n <= 13 || 28 <= n <= 32 || n == 0x85 || n == 0xA0 || n == 0x1680 || 0x2000 <= n <= 0x200A
    || n == 0x2028 || n == 0x2029 || n == 0x202F || n == 0x205F || n == 0x3000
  }

  predicate NotBlank(s: string) { exists i :: 0 <= i < |s| && !IsSpace(s[i]) }

  function Strip(s: string): string {
    if s != "" && IsSpace(s[0]) then Strip(s[1..])
    else if s != "" && IsSpace(s[|s| - 1]) then Strip(s[..|s| - 1])
    else s
  }

  lemma {:induction false} StrippedIsEmpty(s: string)
    ensures Strip(s) == "" <==> !NotBlank(s)
  {
    if s != "" && IsSpace(s[0]) {
      StrippedIsEmpty(s[1..]);
      SameBlank(s, s[1..], 1);
    } else if s != "" && IsSpace(s[|s| - 1]) {
      StrippedIsEmpty(s[..|s| - 1]);
      SameBlank(s, s[..|s| - 1], 0);
    } else if s != "" {
      assert !IsSpace(s[0]);
    }
  }

  ghost predicate Blank(s: string) { forall i :: 0 <= i < |s| ==> IsSpace(s[i]) }

  /** What is left when white space is taken off both ends: it neither begins nor ends with any. */
  lemma {:induction false} StripExactly(s: string) returns (front: string, back: string)
    ensures s == front + Strip(s) + back && Blank(front) && Blank(back)
    ensures Strip(s) != "" ==> !IsSpace(Strip(s)[0]) && !IsSpace(Strip(s)[|Strip(s)| - 1])
    decreases |s|
  {
    front, back := "", "";
    if s != "" && IsSpace(s[0]) {
      front, back := StripExactly(s[1..]);
      assert s == [s[0]] + s[1..];
      assert [s[0]] + (front + Strip(s) + back) == ([s[0]] + front) + Strip(s) + back;
      front := [s[0]] + front;
    } else if s != "" && IsSpace(s[|s| - 1]) {
      var n := |s| - 1;
      front, back := StripExactly(s[..n]);
      assert s == s[..n] + [s[n]];
      assert front + Strip(s) + back + [s[n]] == front + Strip(s) + (back + [s[n]]);
      back := back + [s[n]];
    }
  }

  lemma SameBlank(s: string, part: string, at: nat)
    requires at + |part| <= |s| && part == s[at..at + |part|]
    requires forall i :: 0 <= i < |s| && !(at <= i < at + |part|) ==> IsSpace(s[i])
    ensures NotBlank(s) <==> NotBlank(part)
  {
    if NotBlank(s) {
      var i :| 0 <= i < |s| && !IsSpace(s[i]);
      assert !IsSpace(part[i - at]);
    }
    if NotBlank(part) {
      var i :| 0 <= i < |part| && !IsSpace(part[i]);
      assert !IsSpace(s[at + i]);
    }
  }

  /** The digits from the i-th character on, single underscores between them; 0 if there is anything else. */
  function Digits(s: string, i: nat, value: nat, afterDigit: bool): nat
    requires i <= |s|
    decreases |s| - i
  {
    if i == |s| then (if afterDigit then value else 0)
    else if '0' <= s[i] <= '9' then Digits(s, i + 1, 10 * value + (s[i] as int - '0' as int), true)
    else if s[i] == '_' && afterDigit then Digits(s, i + 1, value, false)
    else 0
  }

  /** Python's `int` of a text; 0 where it raises. */
  function TextInt(s: string): int {
    var t := Strip(s);
    if t == "" then 0
    else if t[0] == '-' then 0 - Digits(t, 1, 0, false) as int
    else Digits(t, if t[0] == '+' then 1 else 0, 0, false)
  }

  ghost predicate AllDigits(s: string) { s != "" && forall i :: 0 <= i < |s| ==> '0' <= s[i] <= '9' }

  ghost function Decimal(s: string): nat
    requires AllDigits(s) || s == ""
  {
    if s == "" then 0 else 10 * Decimal(s[..|s| - 1]) + (s[|s| - 1] as int - '0' as int)
  }

  lemma {:induction false} DigitsExactly(s: string, t: string, i: nat)
    requires AllDigits(t) && i <= |t| <= |s| && s[|s| - |t|..] == t
    ensures Digits(s, |s| - |t| + i, Decimal(t[..i]), i > 0) == Decimal(t)
    decreases |t| - i
  {
    if i < |t| {
      assert s[|s| - |t| + i] == t[i];
      assert t[..i + 1][..i] == t[..i];
      DigitsExactly(s, t, i + 1);
    } else {
      assert t[..i] == t;
    }
  }

  /** A text of digits is the number they stand for, with a sign in front of it too. */
  lemma TextIntExactly(s: string)
    requires AllDigits(s)
    ensures TextInt(s) == Decimal(s) && TextInt("+" + s) == Decimal(s) && TextInt("-" + s) == -(Decimal(s) as int)
  {
    DigitsExactly(s, s, 0);
    DigitsExactly("+" + s, s, 0);
    DigitsExactly("-" + s, s, 0);
    assert !IsSpace(s[0]) && !IsSpace(s[|s| - 1]);
    assert ("+" + s)[|s|] == s[|s| - 1] && ("-" + s)[|s|] == s[|s| - 1];
  }
}
