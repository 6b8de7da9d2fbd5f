/** What an accepted base path is free of, told in characters and in segments. */
module SafePaths {
  import opened SmallNumbers
  import opened Bytes
  import opened Utf8
  import opened Utf8Encoding
  import opened BasePath
  import opened PercentEncoding

  /** Control characters, `?`, `#`, quotes, the backslash, and the separators of lines and paragraphs. */
  predicate IsForbiddenScalar(v: int) {
    || v < 0x20 || 0x7F <= v <= 0x9F || v == 0x2028 || v == 0x2029
    || v == '?' as int || v == '#' as int || v == '\'' as int || v == '"' as int || v == '\\' as int
  }

  lemma ForbiddenIsEncoded(v: int)
    requires IsScalar(v)
    ensures IsForbidden(Encode(v)) <==> IsForbiddenScalar(v)
  {
    hide Encode, IsForbidden;
    var o := Octets(v);
    NumbersOfEncode(v);
    ForbiddenNumbers(Encode(v));
  }

  predicate IsForbiddenOctets(o: seq<int>) {
    || (|o| == 1 && (o[0] < 0x20 || o[0] == 0x7F || o[0] == 0x3F || o[0] == 0x23 || o[0] == 0x27 || o[0] == 0x22
                     || o[0] == 0x5C))
    || (|o| == 2 && o[0] == 0xC2 && 0x80 <= o[1] <= 0x9F)
    || (|o| == 3 && o[0] == 0xE2 && o[1] == 0x80 && (o[2] == 0xA8 || o[2] == 0xA9))
  }

  lemma ForbiddenNumbers(c: Text)
    ensures IsForbidden(c) <==> IsForbiddenOctets(Numbers(c))
  {
    if 1 <= |c| <= 3 {
      SameOrder(c[0], 0x1F);
      SameOrder(0x1F, c[0]);
    }
  }

  // Forbidden bytes are found where characters begin.

  lemma ForbiddenIsChar(c: Text)
    requires IsForbidden(c)
    ensures IsChar(c) && !Continuation(c[0])
  {
  }

  lemma LaterBytesContinue(c: Text, i: nat)
    requires IsChar(c) && 0 < i < |c|
    ensures Continuation(c[i])
  {
  }

  lemma ForbiddenHere(c: Text, rest: Text, n: nat)
    requires IsChar(c) && ForbiddenAt(c + rest, 0, n)
    ensures IsForbidden(c)
  {
    hide IsChar, IsForbidden;
    var s := c + rest;
    var x := s[0..n];
    ForbiddenIsChar(x);
    assert s == x + s[n..];
    CharsArePrefixFree(c, rest, x, s[n..]);
  }

  lemma ForbiddenInside(c: Text, rest: Text, i: nat, n: nat)
    requires IsChar(c) && 0 < i < |c|
    ensures !ForbiddenAt(c + rest, i, n)
  {
    hide IsChar, IsForbidden;
    var s := c + rest;
    LaterBytesContinue(c, i);
    assert s[i] == c[i];
    if ForbiddenAt(s, i, n) {
      var x := s[i..i + n];
      assert x != [] ==> x[0] == s[i];
      ForbiddenIsChar(x);
    }
  }

  lemma ForbiddenLater(c: Text, rest: Text, i: nat, n: nat)
    requires |c| <= i
    ensures ForbiddenAt(c + rest, i, n) <==> ForbiddenAt(rest, i - |c|, n)
  {
    hide IsForbidden;
    var s := c + rest;
    if i + n <= |s| {
      assert s[i..i + n] == rest[i - |c|..i - |c| + n];
    }
  }

  lemma ForbiddenUnfolds(c: Text, rest: Text)
    requires IsChar(c)
    ensures HasForbidden(c + rest) <==> IsForbidden(c) || HasForbidden(rest)
  {
    hide IsChar, ForbiddenAt;
    if HasForbidden(c + rest) {
      var i: nat, n: nat :| i <= |c + rest| && n <= 3 && ForbiddenAt(c + rest, i, n);
      if i == 0 {
        ForbiddenHere(c, rest, n);
      } else if i < |c| {
        ForbiddenInside(c, rest, i, n);
      } else {
        ForbiddenLater(c, rest, i, n);
      }
    }
    if IsForbidden(c) {
      ForbiddenIsShort(c, rest);
      assert ForbiddenAt(c + rest, 0, |c|);
    }
    if HasForbidden(rest) {
      var i: nat, n: nat :| i <= |rest| && n <= 3 && ForbiddenAt(rest, i, n);
      ForbiddenLater(c, rest, |c| + i, n);
    }
  }

  lemma ForbiddenIsShort(c: Text, rest: Text)
    requires IsForbidden(c)
    ensures |c| <= 3 && ForbiddenAt(c + rest, 0, |c|)
  {
    assert (c + rest)[0..|c|] == c;
  }

  /** A text holds something forbidden exactly when one of its characters is. */
  lemma {:induction false} ForbiddenExactlyWhen(values: seq<int>)
    requires forall v <- values :: IsScalar(v)
    ensures HasForbidden(EncodeAll(values)) <==> exists v <- values :: IsForbiddenScalar(v)
    decreases |values|
  {
    hide IsForbidden, IsForbiddenScalar, IsScalar, Encode, HasForbidden, IsChar;
    if values == [] {
      NothingForbidden();
    } else {
      EncodeIsChar(values[0]);
      ForbiddenIsEncoded(values[0]);
      ForbiddenUnfolds(Encode(values[0]), EncodeAll(values[1..]));
      ForbiddenExactlyWhen(values[1..]);
      assert values == [values[0]] + values[1..];
    }
  }

  lemma NothingForbidden()
    ensures !HasForbidden([])
  {
  }

  // The length is counted in characters.

  lemma {:induction false} CountOfConcat(a: Text, b: Text)
    ensures CharCount(a + b) == CharCount(a) + CharCount(b)
    decreases |a|
  {
    hide Continuation;
    if a == [] {
      assert [] + b == b;
    } else {
      assert (a + b)[0] == a[0] && (a + b)[1..] == a[1..] + b;
      CountOfConcat(a[1..], b);
    }
  }

  lemma {:induction false} ContinuationsCountNothing(s: Text)
    requires forall i :: 0 <= i < |s| ==> Continuation(s[i])
    ensures CharCount(s) == 0
    decreases |s|
  {
    hide Continuation;
    if s != [] {
      ContinuationsCountNothing(s[1..]);
    }
  }

  lemma CharCountsOnce(c: Text)
    requires IsChar(c)
    ensures CharCount(c) == 1
  {
    forall i | 0 <= i < |c| - 1 ensures Continuation(c[1..][i]) {
      LaterBytesContinue(c, i + 1);
    }
    ContinuationsCountNothing(c[1..]);
  }

  /** A text is as long as it has characters. */
  lemma {:induction false} CountsCharacters(values: seq<int>)
    requires forall v <- values :: IsScalar(v)
    ensures CharCount(EncodeAll(values)) == |values|
    decreases |values|
  {
    hide IsScalar, Encode, CharCount, IsChar;
    if values == [] {
      NothingCounts();
    } else {
      EncodeIsChar(values[0]);
      CharCountsOnce(Encode(values[0]));
      CountOfConcat(Encode(values[0]), EncodeAll(values[1..]));
      CountsCharacters(values[1..]);
    }
  }

  /** No base path of more than 1024 characters is accepted, however many bytes they take. */
  lemma LongPathsAreRejected(values: seq<int>, urlKeeps: Text -> bool)
    requires forall v <- values :: IsScalar(v)
    requires |values| > 1024
    ensures NormalizeBasePath(EncodeAll(values), urlKeeps) == Rejected(TooLong)
  {
    hide IsScalar, Encode, EncodeAll, CharCount, HasForbidden, ValidEncoding, DecodeUpTo, HasDoubleSlash, HasDotSegment;
    CountsCharacters(values);
    NothingCounts();
    SlashCountsOnce();
  }

  lemma SlashCountsOnce()
    ensures CharCount([SLASH]) == 1
  {
    assert IsChar([SLASH]);
    CharCountsOnce([SLASH]);
  }

  lemma NothingCounts()
    ensures CharCount([]) == 0
  {
  }

  // Segments.

  /** Parts with slashes between them. */
  function Slashed(parts: seq<Text>): Text
    requires parts != []
  {
    if |parts| == 1 then parts[0] else parts[0] + [SLASH] + Slashed(parts[1..])
  }

  lemma {:induction false} SegmentsOfSlashed(parts: seq<Text>)
    requires parts != [] && forall part <- parts :: SLASH !in part
    ensures Segments(Slashed(parts)) == parts
    decreases |parts|
  {
    hide Segments, FirstSlash;
    var s := Slashed(parts);
    assert parts[0] in parts;
    assert forall k :: 0 <= k < |parts[0]| ==> s[k] == parts[0][k];
    FirstSlashIs(s, 0, |parts[0]|);
    SegmentsUnfold(s);
    if |parts| == 1 {
      assert s[..|parts[0]|] == parts[0];
    } else {
      SlashBehind(parts[0], Slashed(parts[1..]));
      SegmentsOfSlashed(parts[1..]);
      assert parts == [parts[0]] + parts[1..];
    }
  }

  lemma SlashBehind(a: Text, rest: Text)
    ensures var s := a + [SLASH] + rest; s[..|a|] == a && s[|a| + 1..] == rest && s[|a|] == SLASH
  {
  }

  /** Every text is its segments with slashes between them. */
  lemma {:induction false} SlashedSegments(s: Text)
    ensures Segments(s) != [] && Slashed(Segments(s)) == s
    ensures forall part <- Segments(s) :: SLASH !in part
    decreases |s|
  {
    hide Segments, FirstSlash;
    SegmentsUnfold(s);
    var i := FirstSlash(s, 0);
    if i < |s| {
      SlashedSegments(s[i + 1..]);
      assert Segments(s)[1..] == Segments(s[i + 1..]);
      assert s[..i + 1] == s[..i] + [SLASH];
    }
  }

  /** There is a dot segment exactly when `.` or `..` is one of the parts between the slashes. */
  lemma DotSegmentExactlyWhen(parts: seq<Text>)
    requires parts != [] && forall part <- parts :: SLASH !in part
    ensures HasDotSegment(Slashed(parts)) <==> Ascii(".") in parts || Ascii("..") in parts
  {
    hide Segments, Slashed;
    SegmentsOfSlashed(parts);
    DotTexts();
  }

  lemma DotTexts()
    ensures Ascii(".") == [DOT] && Ascii("..") == [DOT, DOT] && Ascii("//") == DOUBLE_SLASH
  {
    assert AsciiByte('.') == DOT && AsciiByte('/') == SLASH;
  }

  // Together.

  /** A text is clean when it has no forbidden character, no two slashes in a row, and no dot segment. */
  lemma CleanExactlyWhen(values: seq<int>, parts: seq<Text>)
    requires forall v <- values :: IsScalar(v)
    requires parts != [] && forall part <- parts :: SLASH !in part
    requires EncodeAll(values) == Slashed(parts)
    ensures Clean(EncodeAll(values)) <==>
            && (forall v <- values :: !IsForbiddenScalar(v))
            && !Occurs(Ascii("//"), EncodeAll(values))
            && Ascii(".") !in parts && Ascii("..") !in parts
  {
    hide IsForbiddenScalar, IsScalar, HasForbidden, HasDotSegment, EncodeAll, Slashed;
    ForbiddenExactlyWhen(values);
    DotSegmentExactlyWhen(parts);
    DotTexts();
  }

  /** However deeply it is escaped, and whatever stands around it, nothing that is not clean is accepted. */
  lemma NothingIsHidden(before: Text, t: Text, digits: string, depth: nat, after: Text, urlKeeps: Text -> bool)
    requires AreDigits(digits) && PERCENT !in before
    ensures var input := before + Nested(t, digits, depth) + after;
            IsUtf8(input) && input != [] && input != [SLASH] && NormalizeBasePath(input, urlKeeps).Accepted? ==>
              Clean(before + t + Iterate(after, depth))
  {
    hide *;
    var input := before + Nested(t, digits, depth) + after;
    if IsUtf8(input) && input != [] && input != [SLASH] && NormalizeBasePath(input, urlKeeps).Accepted? {
      AcceptedExactlyWhen(input, urlKeeps);
      CleanAtDepth(input, depth);
      NestedComesToLight(before, t, digits, depth, after);
    }
  }

  lemma CleanAtDepth(s: Text, depth: nat)
    requires CleanAtEveryDepth(s)
    ensures Clean(Iterate(s, depth))
  {
    hide Clean, Iterate;
  }

  // Bytes of paths, in characters.

  /** A URL keeps the printing characters but for `"`, `#`, `<`, `>`, `?`, the backtick and braces. */
  lemma UrlPathBytesAre(c: char)
    requires c < 128 as char
    ensures IsUrlPathByte(AsciiByte(c)) <==>
            '!' <= c <= '~' && c !in {'"', '#', '<', '>', '?', '`', '{', '}'}
  {
    UrlPathCodes();
    AsciiByteIsCode(c);
    InRange('!', c, '~');
    forall d: char | d < 128 as char ensures AsciiByte(c) == AsciiByte(d) <==> c == d {
      AsciiByteIsCode(d);
    }
  }

  lemma UrlPathCodes()
    ensures AsciiByte('!') == 0x21 && AsciiByte('~') == 0x7E && AsciiByte('"') == 0x22 && AsciiByte('#') == 0x23
    ensures AsciiByte('<') == 0x3C && AsciiByte('>') == 0x3E && AsciiByte('?') == 0x3F && AsciiByte('`') == 0x60
    ensures AsciiByte('{') == 0x7B && AsciiByte('}') == 0x7D
  {
  }

  predicate IsNameChar(c: char) {
    'A' <= c <= 'Z' || 'a' <= c <= 'z' || '0' <= c <= '9' || c == '-'
  }

  lemma NameBytesAre(c: char)
    requires c < 128 as char
    ensures IsNameByte(AsciiByte(c)) <==> IsNameChar(c)
  {
    NameCodes();
    InRange('A', c, 'Z');
    InRange('a', c, 'z');
    InRange('0', c, '9');
    InRange('-', c, '-');
  }

  lemma NameCodes()
    ensures AsciiByte('A') == 0x41 && AsciiByte('Z') == 0x5A && AsciiByte('a') == 0x61 && AsciiByte('z') == 0x7A
    ensures AsciiByte('0') == 0x30 && AsciiByte('9') == 0x39 && AsciiByte('-') == 0x2D
  {
  }

  /** Names of letters, digits and hyphens, a slash before each: a path of them is taken as it is. */
  lemma PathOfNamesIsAccepted(s: string, urlKeeps: Text -> bool)
    requires 1 < |s| <= 1024 && s[0] == '/' && s[|s| - 1] != '/'
    requires forall i :: 0 <= i < |s| ==> IsNameChar(s[i]) || s[i] == '/'
    requires forall i :: 0 <= i < |s| - 1 && s[i] == '/' ==> s[i + 1] != '/'
    requires urlKeeps(Ascii(s))
    ensures NormalizeBasePath(Ascii(s), urlKeeps) == Accepted(Ascii(s))
  {
    hide AsciiByte, IsNameByte, NormalizeBasePath;
    forall i | 0 <= i < |s|
      ensures AsciiByte(s[i]) == SLASH <==> s[i] == '/'
      ensures AsciiByte(s[i]) == SLASH || IsNameByte(AsciiByte(s[i]))
    {
      NameBytesAre(s[i]);
      AsciiByteIsSlash(s[i]);
    }
    SimplePathIsAccepted(Ascii(s), urlKeeps);
  }
}
