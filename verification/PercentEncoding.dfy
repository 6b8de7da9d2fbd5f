/** What an escape stands for (section 2.1 of RFC 3986), told by encoding: decoding undoes it. */
module PercentEncoding {
  import opened SmallNumbers
  import opened Bytes
  import opened BasePath

  const UPPER_CASE: string := "0123456789ABCDEF"
  const LOWER_CASE: string := "0123456789abcdef"

  predicate AreDigits(digits: string): (r: bool)
    ensures r ==> |digits| == 16
  {
    digits == UPPER_CASE || digits == LOWER_CASE
  }

  /** A percent sign and two hexadecimal digits, the higher first. */
  function EscapeOf(b: Byte, digits: string): (e: Text)
    requires |digits| == 16
    ensures |e| == 3
  {
    DigitsOf(b);
    [PERCENT, AsciiByte(digits[(b / 16) as int]), AsciiByte(digits[(b % 16) as int])]
  }

  /** Every byte escaped. */
  function Escaped(t: Text, digits: string): Text
    requires |digits| == 16
  {
    if t == [] then [] else EscapeOf(t[0], digits) + Escaped(t[1..], digits)
  }

  lemma DigitsOf(b: Byte)
    ensures 0 <= (b / 16) as int < 16 && 0 <= (b % 16) as int < 16
    ensures 16 * (b / 16) + b % 16 == b
  {
    SameOrder(b / 16, 15);
    SameOrder(b % 16, 15);
  }

  /** The hexadecimal digits are ten digits and six letters in either case. */
  lemma HexDigitsAre(c: char)
    requires c < 128 as char
    ensures IsHexDigit(AsciiByte(c)) <==> '0' <= c <= '9' || 'A' <= c <= 'F' || 'a' <= c <= 'f'
  {
    HexEnds();
    InRange('0', c, '9');
    InRange('A', c, 'F');
    InRange('a', c, 'f');
  }

  lemma HexEnds()
    ensures AsciiByte('0') == 0x30 && AsciiByte('9') == 0x39 && AsciiByte('A') == 0x41 && AsciiByte('F') == 0x46
    ensures AsciiByte('a') == 0x61 && AsciiByte('f') == 0x66
  {
  }

  lemma DigitsOfHalf()
    ensures forall k: nat :: k < 10 ==> UPPER_CASE[k] == LOWER_CASE[k] == '0' + k as char
    ensures forall k: nat :: 10 <= k < 16 ==> UPPER_CASE[k] == 'A' + (k - 10) as char
    ensures forall k: nat :: 10 <= k < 16 ==> LOWER_CASE[k] == 'a' + (k - 10) as char
  {
  }

  lemma DigitHasValue(digits: string, n: Byte)
    requires AreDigits(digits) && n < 16
    ensures 0 <= n as int < 16 && |digits| == 16
    ensures IsHexDigit(AsciiByte(digits[n as int])) && HexValue(AsciiByte(digits[n as int])) == n
  {
    SameOrder(n, 15);
    DigitsOfHalf();
    var k := n as int;
    HexDigitsAre(digits[k]);
    AsciiByteIsCode(digits[k]);
  }

  lemma EscapeIsRead(b: Byte, digits: string, rest: Text)
    requires AreDigits(digits)
    ensures var s := EscapeOf(b, digits) + rest;
            IsEscape(s, 0) && First(s) == (b, 3) && s[3..] == rest
  {
    DigitsOf(b);
    DigitHasValue(digits, b / 16);
    DigitHasValue(digits, b % 16);
    hide AsciiByte, HexValue, IsHexDigit;
  }

  lemma DecodeUnfolds(s: Text)
    requires s != []
    ensures Decode(s) == [First(s).0] + Decode(s[First(s).1..])
  {
    hide First;
  }

  /** Decoding undoes escaping, in either case of the digits and whatever follows. */
  lemma {:induction false} DecodesEscaped(t: Text, digits: string, rest: Text)
    requires AreDigits(digits)
    ensures Decode(Escaped(t, digits) + rest) == t + Decode(rest)
    decreases |t|
  {
    hide Decode, First, EscapeOf, IsEscape;
    if t == [] {
      assert [] + rest == rest && [] + Decode(rest) == Decode(rest);
    } else {
      var escape := EscapeOf(t[0], digits);
      var more := Escaped(t[1..], digits) + rest;
      Reassociate(escape, Escaped(t[1..], digits), rest);
      EscapeIsRead(t[0], digits, more);
      DecodeUnfolds(escape + more);
      DecodesEscaped(t[1..], digits, rest);
      assert t == [t[0]] + t[1..];
      Reassociate([t[0]], t[1..], Decode(rest));
    }
  }

  /** What stands before the first percent sign is decoded to itself. */
  lemma {:induction false} DecodesPlain(t: Text, rest: Text)
    requires PERCENT !in t
    ensures Decode(t + rest) == t + Decode(rest)
    decreases |t|
  {
    hide Decode;
    if t == [] {
      assert [] + rest == rest && [] + Decode(rest) == Decode(rest);
    } else {
      var s := t + rest;
      assert s[0] == t[0] && s[1..] == t[1..] + rest && t[0] in t;
      DecodeUnfolds(s);
      DecodesPlain(t[1..], rest);
      assert t == [t[0]] + t[1..];
      Reassociate([t[0]], t[1..], Decode(rest));
    }
  }

  /** An escape stands for the byte that its digits, the higher first, are the number of; all else for itself. */
  lemma DecodingUndoesEscaping(plain: Text, t: Text, digits: string, rest: Text)
    requires AreDigits(digits) && PERCENT !in plain
    ensures Decode(plain + Escaped(t, digits) + rest) == plain + t + Decode(rest)
    ensures Decode(Escaped(t, digits)) == t && Decode(plain) == plain
  {
    hide Decode;
    Reassociate(plain, Escaped(t, digits), rest);
    DecodesPlain(plain, Escaped(t, digits) + rest);
    DecodesEscaped(t, digits, rest);
    Reassociate(plain, t, Decode(rest));
    DecodesEscaped(t, digits, []);
    DecodesPlain(plain, []);
    DecodesNothing();
    assert Escaped(t, digits) + [] == Escaped(t, digits) && t + [] == t && plain + [] == plain;
  }

  lemma DecodesNothing()
    ensures Decode([]) == []
  {
  }

  /** Escaped again and again. */
  function Nested(t: Text, digits: string, depth: nat): Text
    requires |digits| == 16
    decreases depth
  {
    if depth == 0 then t else Escaped(Nested(t, digits, depth - 1), digits)
  }

  /** As many rounds of decoding bring it to light, whatever stands around it. */
  lemma {:induction false} NestedComesToLight(before: Text, t: Text, digits: string, depth: nat, after: Text)
    requires AreDigits(digits) && PERCENT !in before
    ensures Iterate(before + Nested(t, digits, depth) + after, depth) == before + t + Iterate(after, depth)
    decreases depth
  {
    hide Decode, Escaped;
    if depth > 0 {
      var inner := Nested(t, digits, depth - 1);
      DecodingUndoesEscaping(before, inner, digits, after);
      NestedComesToLight(before, t, digits, depth - 1, Decode(after));
      IterateShifts(before + Escaped(inner, digits) + after, depth - 1);
      IterateShifts(after, depth - 1);
    }
  }
}
