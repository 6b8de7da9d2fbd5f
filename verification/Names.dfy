/** Identifiers as they are written: which bytes make one, and what an expression is in characters. */
module Names {
  import opened SmallNumbers
  import opened Bytes
  import opened ExpressionSpec

  predicate IsLetter(c: char) {
    'a' <= c <= 'z' || 'A' <= c <= 'Z'
  }

  predicate IsNameStart(c: char) {
    IsLetter(c) || c == '_' || c == '$'
  }

  predicate IsNamePart(c: char) {
    IsNameStart(c) || '0' <= c <= '9'
  }

  predicate IsName(s: string) {
    s != "" && IsNameStart(s[0]) && forall i :: 0 < i < |s| ==> IsNamePart(s[i])
  }

  /** Names with dots between them. */
  function Dotted(names: seq<string>): string
    requires names != []
  {
    if |names| == 1 then names[0] else names[0] + "." + Dotted(names[1..])
  }

  // Bytes.

  lemma RangeEnds()
    ensures AsciiByte('A') == 0x41 && AsciiByte('Z') == 0x5A && AsciiByte('a') == 0x61 && AsciiByte('z') == 0x7A
    ensures AsciiByte('0') == 0x30 && AsciiByte('9') == 0x39 && AsciiByte('_') == 0x5F && AsciiByte('$') == 0x24
  {
  }

  /** The identifier bytes are those of letters, digits, `_` and `$`; a digit does not come first. */
  lemma IdentifierBytesOf(c: char)
    requires c < 128 as char
    ensures IdentifierStart(AsciiByte(c)) <==> IsNameStart(c)
    ensures IdentifierContinue(AsciiByte(c)) <==> IsNamePart(c)
  {
    RangeEnds();
    InRange('A', c, 'Z');
    InRange('a', c, 'z');
    InRange('0', c, '9');
    InRange('_', c, '_');
    InRange('$', c, '$');
  }

  lemma NoOtherIdentifierBytes(b: Byte)
    requires b >= 128
    ensures !IdentifierContinue(b)
  {
  }

  /** The characters with the given bytes. */
  function Characters(t: Text): (s: string)
    ensures |s| == |t|
  {
    seq(|t|, i requires 0 <= i < |t| => t[i] as int as char)
  }

  lemma CharactersOf(t: Text)
    requires forall i :: 0 <= i < |t| ==> t[i] < 128
    ensures Ascii(Characters(t)) == t
    ensures forall i :: 0 <= i < |t| ==> Characters(t)[i] < 128 as char
  {
    var s := Characters(t);
    forall i | 0 <= i < |t| ensures s[i] < 128 as char && Ascii(s)[i] == t[i] {
      CharacterOf(t[i]);
      assert s[i] == t[i] as int as char;
    }
  }

  lemma CharacterOf(b: Byte)
    requires b < 128
    ensures b as int as char < 128 as char && AsciiByte(b as int as char) == b
  {
    SameOrder(b, 127);
    var n := NumberOf(b);
  }

  // Identifiers and expressions.

  lemma NameIsIdentifier(s: string)
    requires IsName(s)
    ensures IsIdentifier(Ascii(s))
  {
    hide AsciiByte, IdentifierStart, IdentifierContinue;
    forall i | 0 <= i < |s| ensures s[i] < 128 as char {
      NamePartIsAscii(s[i]);
    }
    forall i | 0 <= i < |s|
      ensures IdentifierStart(AsciiByte(s[i])) <==> IsNameStart(s[i])
      ensures IdentifierContinue(AsciiByte(s[i])) <==> IsNamePart(s[i])
    {
      IdentifierBytesOf(s[i]);
    }
  }

  lemma NamePartIsAscii(c: char)
    requires IsNameStart(c) || IsNamePart(c)
    ensures c < 128 as char
  {
  }

  lemma IdentifierIsName(e: Text)
    requires IsIdentifier(e)
    ensures IsName(Characters(e)) && Ascii(Characters(e)) == e
  {
    hide Ascii, Characters, IdentifierStart, IdentifierContinue;
    IdentifierIsAscii(e);
    CharactersOf(e);
    var s := Characters(e);
    forall i | 0 <= i < |s|
      ensures IdentifierStart(e[i]) <==> IsNameStart(s[i])
      ensures IdentifierContinue(e[i]) <==> IsNamePart(s[i])
    {
      assert Ascii(s)[i] == AsciiByte(s[i]);
      IdentifierBytesOf(s[i]);
    }
  }

  lemma IdentifierIsAscii(e: Text)
    requires IsIdentifier(e)
    ensures forall i :: 0 <= i < |e| ==> e[i] < 128
  {
    IdentifierIsExpression(Identifier, e);
    ExpressionIsAscii(Identifier, e);
  }

  ghost predicate AreNames(syntax: Syntax, names: seq<string>) {
    && names != [] && (forall i :: 0 <= i < |names| ==> IsName(names[i]))
    && (syntax.Identifier? ==> |names| == 1)
  }

  lemma {:induction false} DottedIsExpression(syntax: Syntax, names: seq<string>)
    requires AreNames(syntax, names)
    ensures IsExpression(syntax, Ascii(Dotted(names)))
    decreases |names|
  {
    hide Ascii, IsName, IsIdentifier, IsExpression;
    assert IsName(names[0]);
    NameIsIdentifier(names[0]);
    if |names| == 1 {
      IdentifierIsExpression(syntax, Ascii(names[0]));
    } else {
      DottedIsExpression(syntax, names[1..]);
      AsciiDotted(names[0], Dotted(names[1..]));
      JoinIsExpression(syntax, Ascii(names[0]), Ascii(Dotted(names[1..])));
    }
  }

  lemma AsciiDotted(a: string, b: string)
    ensures Ascii(a + "." + b) == Ascii(a) + [DOT] + Ascii(b)
  {
    assert AsciiByte('.') == DOT;
    hide AsciiByte;
  }

  lemma JoinIsExpression(syntax: Syntax, a: Text, b: Text)
    requires syntax.MemberExpression? && IsIdentifier(a) && IsExpression(syntax, b)
    ensures IsExpression(syntax, a + [DOT] + b)
  {
    hide IsIdentifier;
    IdentifierIsNotEmpty(a);
    ExpressionIsNotEmpty(syntax, b);
    var s := a + [DOT] + b;
    assert s[..|a|] == a && s[|a|] == DOT && s[|a| + 1..] == b;
  }

  lemma IdentifierIsNotEmpty(a: Text)
    requires IsIdentifier(a)
    ensures a != []
  {
  }

  lemma {:induction false} ExpressionIsDotted(syntax: Syntax, e: Text) returns (names: seq<string>)
    requires IsExpression(syntax, e)
    ensures AreNames(syntax, names) && e == Ascii(Dotted(names))
    decreases |e|
  {
    hide Ascii, Characters, IsName, IsIdentifier, IsExpression;
    if IsIdentifier(e) {
      IdentifierIsName(e);
      names := [Characters(e)];
    } else {
      var n := FirstSegment(syntax, e);
      IdentifierIsName(e[..n]);
      var first := Characters(e[..n]);
      var rest := ExpressionIsDotted(syntax, e[n + 1..]);
      names := [first] + rest;
      assert names[1..] == rest;
      AsciiDotted(first, Dotted(rest));
      assert e == e[..n] + [DOT] + e[n + 1..];
    }
  }

  /** What is scanned for: a name, or with member syntax names joined by dots. */
  lemma ExpressionsAreNames(syntax: Syntax, e: Text)
    ensures IsExpression(syntax, e) <==> exists names :: AreNames(syntax, names) && e == Ascii(Dotted(names))
  {
    hide IsExpression, Ascii, IsName;
    if IsExpression(syntax, e) {
      var names := ExpressionIsDotted(syntax, e);
    }
    if names :| AreNames(syntax, names) && e == Ascii(Dotted(names)) {
      DottedIsExpression(syntax, names);
    }
  }
}
