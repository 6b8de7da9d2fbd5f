/** Characters as numbers (section 3 of RFC 3629): the grammar holds exactly the encodings of the scalar
    values, each in its shortest form, and a well-formed text is the encoding of one sequence of them. */
module Utf8Encoding {
  import opened Bytes
  import opened SmallNumbers
  import opened Utf8

  /** The numbers of characters: all up to 0x10FFFF but the surrogates. */
  predicate IsScalar(v: int) {
    0 <= v <= 0xD7FF || 0xE000 <= v <= 0x10FFFF
  }

  /** The numbers of the bytes of a character: its bits in groups of six, the last group last. */
  function Octets(v: int): (o: seq<int>)
    requires IsScalar(v)
    ensures 1 <= |o| <= 4
    ensures forall i :: 0 <= i < |o| ==> 0 <= o[i] < 256
  {
    if v < 0x80 then [v]
    else if v < 0x800 then [0xC0 + v / 64, 0x80 + v % 64]
    else if v < 0x10000 then [0xE0 + v / 64 / 64, 0x80 + v / 64 % 64, 0x80 + v % 64]
    else [0xF0 + v / 64 / 64 / 64, 0x80 + v / 64 / 64 % 64, 0x80 + v / 64 % 64, 0x80 + v % 64]
  }

  function Encode(v: int): (c: Text)
    requires IsScalar(v)
    ensures |c| == |Octets(v)|
    ensures forall i :: 0 <= i < |c| ==> c[i] == Octets(v)[i] as Byte
  {
    var o := Octets(v);
    seq(|o|, i requires 0 <= i < |o| => o[i] as Byte)
  }

  function EncodeAll(values: seq<int>): Text
    requires forall v <- values :: IsScalar(v)
  {
    if values == [] then [] else Encode(values[0]) + EncodeAll(values[1..])
  }

  // The grammar in numbers.

  predicate IsCharOf(o: seq<int>) {
    || (|o| == 1 && o[0] <= 0x7F)
    || (|o| == 2 && 0xC2 <= o[0] <= 0xDF && 0x80 <= o[1] <= 0xBF)
    || (|o| == 3 && 0x80 <= o[2] <= 0xBF && (
            || (o[0] == 0xE0 && 0xA0 <= o[1] <= 0xBF)
            || (0xE1 <= o[0] <= 0xEC && 0x80 <= o[1] <= 0xBF)
            || (o[0] == 0xED && 0x80 <= o[1] <= 0x9F)
            || (0xEE <= o[0] <= 0xEF && 0x80 <= o[1] <= 0xBF)))
    || (|o| == 4 && 0x80 <= o[2] <= 0xBF && 0x80 <= o[3] <= 0xBF && (
            || (o[0] == 0xF0 && 0x90 <= o[1] <= 0xBF)
            || (0xF1 <= o[0] <= 0xF3 && 0x80 <= o[1] <= 0xBF)
            || (o[0] == 0xF4 && 0x80 <= o[1] <= 0x8F)))
  }

  function Numbers(c: Text): (o: seq<int>)
    ensures |o| == |c| && forall i :: 0 <= i < |c| ==> o[i] == c[i] as int
  {
    seq(|c|, i requires 0 <= i < |c| => c[i] as int)
  }

  lemma FirstByte(b: Byte)
    ensures b <= 0x7F <==> b as int <= 0x7F
    ensures 0xC2 <= b <= 0xDF <==> 0xC2 <= b as int <= 0xDF
    ensures b == 0xE0 <==> b as int == 0xE0
    ensures 0xE1 <= b <= 0xEC <==> 0xE1 <= b as int <= 0xEC
    ensures b == 0xED <==> b as int == 0xED
    ensures 0xEE <= b <= 0xEF <==> 0xEE <= b as int <= 0xEF
    ensures b == 0xF0 <==> b as int == 0xF0
    ensures 0xF1 <= b <= 0xF3 <==> 0xF1 <= b as int <= 0xF3
    ensures b == 0xF4 <==> b as int == 0xF4
  {
    SameOrder(b, 0x7F);
    Between(0xC2, b, 0xDF);
    Between(0xE0, b, 0xE0);
    Between(0xE1, b, 0xEC);
    Between(0xED, b, 0xED);
    Between(0xEE, b, 0xEF);
    Between(0xF0, b, 0xF0);
    Between(0xF1, b, 0xF3);
    Between(0xF4, b, 0xF4);
  }

  lemma LaterByte(b: Byte)
    ensures Continuation(b) <==> 0x80 <= b as int <= 0xBF
    ensures 0xA0 <= b <= 0xBF <==> 0xA0 <= b as int <= 0xBF
    ensures 0x80 <= b <= 0x9F <==> 0x80 <= b as int <= 0x9F
    ensures 0x90 <= b <= 0xBF <==> 0x90 <= b as int <= 0xBF
    ensures 0x80 <= b <= 0x8F <==> 0x80 <= b as int <= 0x8F
  {
    Between(0x80, b, 0xBF);
    Between(0xA0, b, 0xBF);
    Between(0x80, b, 0x9F);
    Between(0x90, b, 0xBF);
    Between(0x80, b, 0x8F);
  }

  lemma GrammarInNumbers(c: Text)
    ensures IsChar(c) <==> IsCharOf(Numbers(c))
  {
    if 1 <= |c| <= 4 {
      FirstByte(c[0]);
      if |c| >= 2 { LaterByte(c[1]); }
      if |c| >= 3 { LaterByte(c[2]); }
      if |c| >= 4 { LaterByte(c[3]); }
    }
  }

  // Encoding and decoding.

  /** The scalar value with the given bytes. */
  function Scalar(o: seq<int>): int
    requires IsCharOf(o)
  {
    if |o| == 1 then o[0]
    else if |o| == 2 then (o[0] - 0xC0) * 64 + (o[1] - 0x80)
    else if |o| == 3 then ((o[0] - 0xE0) * 64 + (o[1] - 0x80)) * 64 + (o[2] - 0x80)
    else (((o[0] - 0xF0) * 64 + (o[1] - 0x80)) * 64 + (o[2] - 0x80)) * 64 + (o[3] - 0x80)
  }

  lemma Groups(high: int, low: int)
    requires 0 <= low < 64
    ensures (high * 64 + low) / 64 == high && (high * 64 + low) % 64 == low
  {
  }

  lemma OctetsAreAChar(v: int)
    requires IsScalar(v)
    ensures IsCharOf(Octets(v)) && Scalar(Octets(v)) == v
  {
    var a := v / 64;
    var b := a / 64;
    assert v == a * 64 + v % 64 && a == b * 64 + a % 64 && b == b / 64 * 64 + b % 64;
  }

  lemma ShortCharIsOctets(o: seq<int>)
    requires IsCharOf(o) && 0 <= o[0] && |o| <= 2
    ensures IsScalar(Scalar(o)) && Octets(Scalar(o)) == o
  {
    if |o| == 2 {
      Groups(o[0] - 0xC0, o[1] - 0x80);
    }
  }

  lemma ThreeOctets(o: seq<int>)
    requires IsCharOf(o) && |o| == 3
    ensures IsScalar(Scalar(o)) && Octets(Scalar(o)) == o
  {
    var high := (o[0] - 0xE0) * 64 + (o[1] - 0x80);
    Groups(o[0] - 0xE0, o[1] - 0x80);
    Groups(high, o[2] - 0x80);
  }

  lemma FourOctets(o: seq<int>)
    requires IsCharOf(o) && |o| == 4
    ensures IsScalar(Scalar(o)) && Octets(Scalar(o)) == o
  {
    var high := (o[0] - 0xF0) * 64 + (o[1] - 0x80);
    Groups(o[0] - 0xF0, o[1] - 0x80);
    Groups(high, o[2] - 0x80);
    Groups(high * 64 + (o[2] - 0x80), o[3] - 0x80);
  }

  lemma CharIsOctets(o: seq<int>)
    requires IsCharOf(o) && 0 <= o[0]
    ensures IsScalar(Scalar(o)) && Octets(Scalar(o)) == o
  {
    hide Scalar, Octets;
    if |o| <= 2 {
      ShortCharIsOctets(o);
    } else if |o| == 3 {
      ThreeOctets(o);
    } else {
      FourOctets(o);
    }
  }

  lemma NumbersOfEncode(v: int)
    requires IsScalar(v)
    ensures Numbers(Encode(v)) == Octets(v)
  {
    var c, o := Encode(v), Octets(v);
    forall i | 0 <= i < |c| ensures c[i] as int == o[i] {
      SmallNumberFits(o[i]);
    }
  }

  lemma NumbersDetermine(a: Text, b: Text)
    requires Numbers(a) == Numbers(b)
    ensures a == b
  {
    forall i | 0 <= i < |a| ensures a[i] == b[i] {
      var m := NumberOf(a[i]);
      var n := NumberOf(b[i]);
      assert Numbers(a)[i] == Numbers(b)[i];
    }
  }

  lemma EncodeIsChar(v: int)
    requires IsScalar(v)
    ensures IsChar(Encode(v))
  {
    NumbersOfEncode(v);
    OctetsAreAChar(v);
    GrammarInNumbers(Encode(v));
  }

  lemma EncodesOneValue(c: Text) returns (v: int)
    requires IsChar(c)
    ensures IsScalar(v) && c == Encode(v)
  {
    GrammarInNumbers(c);
    v := Scalar(Numbers(c));
    CharIsOctets(Numbers(c));
    NumbersOfEncode(v);
    NumbersDetermine(c, Encode(v));
  }

  /** The characters of the grammar are exactly the encodings of the scalar values... */
  lemma CharsAreScalarsEncoded(c: Text)
    ensures IsChar(c) <==> exists v: int :: IsScalar(v) && c == Encode(v)
  {
    if IsChar(c) {
      var v := EncodesOneValue(c);
    }
    if v: int :| IsScalar(v) && c == Encode(v) {
      EncodeIsChar(v);
    }
  }

  /** ...which differ for different values. */
  lemma EncodeIsInjective(v: int, w: int)
    requires IsScalar(v) && IsScalar(w)
    ensures Encode(v) == Encode(w) ==> v == w
  {
    hide Octets, Scalar;
    NumbersOfEncode(v);
    NumbersOfEncode(w);
    OctetsAreAChar(v);
    OctetsAreAChar(w);
  }

  // Texts.

  lemma {:induction false} CharsAreEncoded(chars: seq<Text>) returns (values: seq<int>)
    requires forall c <- chars :: IsChar(c)
    ensures forall v <- values :: IsScalar(v)
    ensures EncodeAll(values) == Flatten(chars)
    decreases |chars|
  {
    hide IsChar, IsScalar, Encode;
    if chars == [] {
      values := [];
    } else {
      assert chars[0] in chars;
      var v := EncodesOneValue(chars[0]);
      var rest := CharsAreEncoded(chars[1..]);
      values := [v] + rest;
      assert values[1..] == rest;
    }
  }

  lemma {:induction false} EncodedIsWellFormed(values: seq<int>)
    requires forall v <- values :: IsScalar(v)
    ensures WellFormed(EncodeAll(values))
    decreases |values|
  {
    hide IsChar, IsScalar, Encode, WellFormed;
    if values == [] {
      EmptyIsWellFormed();
    } else {
      assert values[0] in values;
      EncodeIsChar(values[0]);
      WellFormedOneChar(Encode(values[0]));
      EncodedIsWellFormed(values[1..]);
      WellFormedConcat(Encode(values[0]), EncodeAll(values[1..]));
    }
  }

  lemma EmptyIsWellFormed()
    ensures WellFormed([])
  {
    assert Flatten([]) == [];
  }

  /** A text is accepted exactly when it is the encoding of a sequence of scalar values. */
  lemma AcceptedIffEncoded(s: Text)
    ensures Tail([], s) == Some([]) <==>
            exists values: seq<int> :: (forall v <- values :: IsScalar(v)) && s == EncodeAll(values)
  {
    hide IsChar, IsScalar, Encode, EncodeAll, Tail;
    AcceptedIffWellFormed(s);
    if WellFormed(s) {
      var chars: seq<Text> :| (forall c <- chars :: IsChar(c)) && Flatten(chars) == s;
      var values := CharsAreEncoded(chars);
    }
    if values: seq<int> :| (forall v <- values :: IsScalar(v)) && s == EncodeAll(values) {
      EncodedIsWellFormed(values);
    }
  }

  lemma CharsArePrefixFree(a: Text, x: Text, b: Text, y: Text)
    requires IsChar(a) && IsChar(b) && a + x == b + y
    ensures a == b && x == y
  {
    assert a[0] == (a + x)[0] == (b + y)[0] == b[0];
    assert |a| == |b|;
    assert a == (a + x)[..|a|] && b == (b + y)[..|b|];
    assert x == (a + x)[|a|..] && y == (b + y)[|b|..];
  }

  /** A text is the encoding of one sequence at most. */
  lemma {:induction false} EncodeAllIsInjective(a: seq<int>, b: seq<int>)
    requires forall v <- a :: IsScalar(v)
    requires forall v <- b :: IsScalar(v)
    requires EncodeAll(a) == EncodeAll(b)
    ensures a == b
    decreases |a| + |b|
  {
    hide IsChar, IsScalar, Octets;
    if a != [] && b != [] {
      EncodeIsChar(a[0]);
      EncodeIsChar(b[0]);
      CharsArePrefixFree(Encode(a[0]), EncodeAll(a[1..]), Encode(b[0]), EncodeAll(b[1..]));
      EncodeIsInjective(a[0], b[0]);
      EncodeAllIsInjective(a[1..], b[1..]);
      assert a == [a[0]] + a[1..] && b == [b[0]] + b[1..];
    }
  }
}
