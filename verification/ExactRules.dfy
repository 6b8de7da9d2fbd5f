/** The exact rules of the console: none makes work for itself or for one before it. */
module ExactRules {
  import opened Bytes
  import opened LiteralSpec
  import opened ExpressionSpec
  import opened Stages
  import opened Profiles
  import opened StageEffects
  import opened CodeTests

  // The sources of the exact rules.

  function ExactSource(i: nat): string
    requires i < 4
  {
    CONSOLE_EXACTS[i].0
  }

  /** No byte of a source of an exact rule is one of these, and the last is no letter. */
  predicate IsSentence(s: string, last: char) {
    |s| > 18 && s[|s| - 1] == last && Lacks(s, '=') && Lacks(s, 'C') && Lacks(s, ':')
  }

  lemma SentenceParts(a: string, b: string, last: char)
    requires |a| + |b| > 18 && b != "" && b[|b| - 1] == last
    requires Lacks(a, '=') && Lacks(a, 'C') && Lacks(a, ':') && Lacks(b, '=') && Lacks(b, 'C') && Lacks(b, ':')
    ensures IsSentence(a + b, last)
    ensures Lacks(a, 'W') && Lacks(b, 'W') ==> Lacks(a + b, 'W')
  {
  }

  lemma ExactSource0()
    ensures IsSentence(ExactSource(0), ';') && Lacks(ExactSource(0), 'W') && "return " <= ExactSource(0)
  {
    SentenceParts("return requestURL.", ONE_SLASH + ";", ';');
  }

  lemma ExactSource1()
    ensures IsSentence(ExactSource(1), ';') && Lacks(ExactSource(1), 'W') && "return " <= ExactSource(1)
  {
    SentenceParts("\"/\".concat(", "path.trimLeft('/'));", ';');
    SentenceParts("return ", "\"/\".concat(" + "path.trimLeft('/'));", ';');
  }

  lemma ExactSource2()
    ensures IsSentence(ExactSource(2), ';') && Lacks(ExactSource(2), 'W') && "return " <= ExactSource(2)
  {
    SentenceParts("\\\"/\\\".concat(", "path.trimLeft('/'));", ';');
    SentenceParts("return ", "\\\"/\\\".concat(" + "path.trimLeft('/'));", ';');
  }

  lemma ExactSource3()
    ensures IsSentence(ExactSource(3), '{') && "if (" <= ExactSource(3)
  {
    SentenceParts("if (path.", "startsWith('http')) {", '{');
  }

  lemma SourceOfExact(i: nat)
    requires i < 4
    ensures IsSentence(ExactSource(i), if i < 3 then ';' else '{')
    ensures i < 3 ==> Lacks(ExactSource(i), 'W') && "return " <= ExactSource(i)
    ensures i == 3 ==> "if (" <= ExactSource(i)
  {
    hide *;
    if i == 0 {
      ExactSource0();
    } else if i == 1 {
      ExactSource1();
    } else if i == 2 {
      ExactSource2();
    } else {
      ExactSource3();
    }
  }

  // What the exact rules write.

  /** How a source begins. */
  function Opening(i: nat): string {
    if i < 3 then "return " else "if ("
  }

  function OpeningWord(i: nat): string {
    if i < 3 then "ret" else "if "
  }

  lemma Openings(i: nat)
    requires i < 4
    ensures Opening(i) <= ExactSource(i) && OpeningWord(i) <= Opening(i) && ArePlain(Opening(i))
    ensures OpeningWord(i) != "" && OpeningWord(i) <= ExactSource(i)
  {
    SourceOfExact(i);
    hide ExactSource;
  }

  lemma SourceNoStart(i: nat, literal: string)
    requires i < 4 && NoWord(OpeningWord(i), literal)
    ensures NoStart(Ascii(ExactSource(i)), Ascii(literal))
  {
    Openings(i);
    BeginsWith(ExactSource(i), Opening(i), []);
    hide ExactSource, OpeningWord, Opening, Ascii, NoWord, NoStart;
    assert Ascii(ExactSource(i)) + [] == Ascii(ExactSource(i));
    WordNoStart(Ascii(ExactSource(i)), Opening(i), OpeningWord(i), literal);
  }

  /** A source does not touch a replacement that goes on, where it differs, with a character that no source holds. */
  lemma SourceIsShy(i: nat, share: string, rest: string, tail: Text, d: nat)
    requires i < 4 && d < |rest| && IsPlainChar(rest[d]) && Lacks(ExactSource(i), rest[d])
    requires Lacks(rest[..d], ';') && Lacks(rest[..d], '{')
    requires NoWord(OpeningWord(i), rest) && NoStart(Ascii(ExactSource(i)), tail)
    ensures Shy(Ascii(ExactSource(i)), Ascii(share + rest) + tail, |share|)
  {
    LastOfSource(i);
    SourceNoStart(i, rest);
    AsciiConcat(share, rest);
    AsciiLacks(ExactSource(i), rest[d]);
    LastByteNotIn(ExactSource(i), ExactSource(i)[|ExactSource(i)| - 1], rest[..d]);
    AsciiTake(rest, d);
    hide *;
    ShyBehind(Ascii(ExactSource(i)), Ascii(share), Ascii(rest), tail, d);
  }

  lemma AsciiTake(s: string, d: nat)
    requires d < |s|
    ensures |Ascii(s)| == |s| && Ascii(s)[d] == AsciiByte(s[d]) && Ascii(s)[..d] == Ascii(s[..d])
  {
    hide AsciiByte;
  }

  lemma LastOfSource(i: nat)
    requires i < 4
    ensures ExactSource(i) != "" && Ascii(ExactSource(i)) != []
    ensures ExactSource(i)[|ExactSource(i)| - 1] == if i < 3 then ';' else '{'
  {
    SourceOfExact(i);
    hide ExactSource, AsciiByte;
  }

  lemma UrlTestHolds(w: string)
    requires NoWord(w, "toLowerCase()") && NoWord(w, ".startsWith('http://') || ")
    requires NoWord(w, "requestURL.toLowerCase()") && NoWord(w, ".startsWith('https://') || ")
    requires NoWord(w, "requestURL.startsWith('//')") && NoWord(w, " ? requestURL : (requestURL.")
    requires NoWord(w, ONE_SLASH) && NoWord(w, " === '")
    ensures NoWord(w, URL_TEST)
  {
    hide NoWord;
    var a := "toLowerCase()" + ".startsWith('http://') || ";
    var b := a + "requestURL.toLowerCase()" + ".startsWith('https://') || ";
    var c := b + "requestURL.startsWith('//')" + " ? requestURL : (requestURL.";
    NoWordConcat(w, "toLowerCase()", ".startsWith('http://') || ");
    NoWordConcat(w, a, "requestURL.toLowerCase()");
    NoWordConcat(w, a + "requestURL.toLowerCase()", ".startsWith('https://') || ");
    NoWordConcat(w, b, "requestURL.startsWith('//')");
    NoWordConcat(w, b + "requestURL.startsWith('//')", " ? requestURL : (requestURL.");
    NoWordConcat(w, c, ONE_SLASH);
    NoWordConcat(w, c + ONE_SLASH, " === '");
  }

  lemma PathTestHolds(w: string)
    requires NoWord(w, "toLowerCase()") && NoWord(w, ".startsWith('http://') || ")
    requires NoWord(w, "path.toLowerCase()") && NoWord(w, ".startsWith('https://')) {")
    ensures NoWord(w, PATH_TEST)
  {
    hide NoWord;
    var a := "toLowerCase()" + ".startsWith('http://') || ";
    NoWordConcat(w, "toLowerCase()", ".startsWith('http://') || ");
    NoWordConcat(w, a, "path.toLowerCase()");
    NoWordConcat(w, a + "path.toLowerCase()", ".startsWith('https://')) {");
  }

  lemma JoinedPathsHold(w: string)
    requires NoWord(w, "path.startsWith('/') ? path : ")
    requires NoWord(w, "\"/\".concat(path);") && NoWord(w, "\\\"/\\\".concat(path);")
    ensures NoWord(w, JOINED_PATH) && NoWord(w, JOINED_PATH_ESCAPED)
  {
    hide NoWord;
    NoWordConcat(w, "path.startsWith('/') ? path : ", "\"/\".concat(path);");
    NoWordConcat(w, "path.startsWith('/') ? path : ", "\\\"/\\\".concat(path);");
  }

  lemma NoReturnInUrlTest()
    ensures NoWord("ret", URL_TEST)
  {
    UrlTestHolds("ret");
  }

  lemma NoWordInPathTest()
    ensures NoWord("ret", PATH_TEST) && NoWord("if ", PATH_TEST)
  {
    PathTestHolds("ret");
    PathTestHolds("if ");
  }

  lemma NoReturnInJoinedPaths()
    ensures NoWord("ret", JOINED_PATH) && NoWord("ret", JOINED_PATH_ESCAPED)
  {
    JoinedPathsHold("ret");
  }

  lemma NoRootInUrlTest()
    ensures NoWord("/e", URL_TEST)
  {
    UrlTestHolds("/e");
  }

  lemma NoRootInPathTests()
    ensures NoWord("/e", PATH_TEST) && NoWord("/e", JOINED_PATH) && NoWord("/e", JOINED_PATH_ESCAPED)
  {
    PathTestHolds("/e");
    JoinedPathsHold("/e");
  }

  // The exact rules.

  function ExactParts(i: nat): seq<string>
    requires i < 4
  {
    CONSOLE_EXACTS[i].1
  }

  function ConsoleExact(i: nat, base: Text): Spec
    requires i < 4
  {
    LiteralStage(Replacing(Ascii(ExactSource(i)), Filled(ExactParts(i), base)))
  }

  /** Where source and replacement part, and how the replacement goes on up to the first base path. */
  function Share(i: nat): string {
    if i == 0 then "return requestURL." else if i < 3 then "return " else "if (path."
  }

  function GoesOn(i: nat): string {
    if i == 0 then URL_TEST else if i == 1 then JOINED_PATH else if i == 2 then JOINED_PATH_ESCAPED else PATH_TEST
  }

  function Remainder(i: nat, base: Text): Text
    requires i < 4
  {
    if i == 0 then base + Filled(ExactParts(0)[1..], base) else []
  }

  lemma ExactIs(i: nat, base: Text)
    requires i < 4
    ensures Filled(ExactParts(i), base) == Ascii(Share(i) + GoesOn(i)) + Remainder(i, base)
    ensures |Share(i)| < |ExactSource(i)| && ExactSource(i)[..|Share(i)|] == Share(i)
  {
    FilledSteps(ExactParts(i), base);
    hide Ascii, Filled;
  }

  lemma UrlPartsHold(w: string)
    requires NoWord(w, "' || requestURL.") && NoWord(w, ONE_SLASH) && NoWord(w, ".startsWith('")
    requires NoWord(w, "/') ? requestURL.") && NoWord(w, " : '")
    requires NoWord(w, "/'.concat(requestURL.") && NoWord(w, ".replace(/^\\\\/+/, '')));")
    ensures |ExactParts(0)| == 4 && forall k :: 0 < k < 4 ==> NoWord(w, ExactParts(0)[k])
  {
    hide NoWord;
    NoWordConcat(w, "' || requestURL.", ONE_SLASH);
    NoWordConcat(w, "' || requestURL." + ONE_SLASH, ".startsWith('");
    NoWordConcat(w, "/') ? requestURL.", ONE_SLASH);
    NoWordConcat(w, "/') ? requestURL." + ONE_SLASH, " : '");
    NoWordConcat(w, "/'.concat(requestURL.", ONE_SLASH);
    NoWordConcat(w, "/'.concat(requestURL." + ONE_SLASH, ".replace(/^\\\\/+/, '')));");
  }

  /** What follows a base path in the first replacement. */
  predicate FollowsUrl(x: Text) {
    Ascii("' ") <= x || Ascii("/'") <= x
  }

  /** From one base path to the next. */
  lemma UrlPartsNoStart(v: Text, base: Text)
    requires |ExactParts(0)| == 4 && forall k :: 0 < k < 4 ==> NoStart(v, Ascii(ExactParts(0)[k]))
    requires forall x :: FollowsUrl(x) && NoStart(v, x) ==> NoStart(v, base + x)
    ensures NoStart(v, Remainder(0, base))
  {
    var parts := ExactParts(0);
    UrlPartsFollow(Filled(parts[2..], base), base);
    FilledSteps(parts[1..], base);
    FilledSteps(parts[2..], base);
    FilledSteps(parts[3..], base);
    hide NoStart, Ascii, Filled, ExactParts, FollowsUrl;
    var last, third := Ascii(parts[3]), Ascii(parts[2]) + (base + Ascii(parts[3]));
    var second := Ascii(parts[1]) + (base + third);
    assert parts[1..][1..] == parts[2..] && parts[2..][1..] == parts[3..];
    NoStartConcat(v, Ascii(parts[2]), base + last);
    NoStartConcat(v, Ascii(parts[1]), base + third);
    assert Remainder(0, base) == base + second;
  }

  lemma UrlPartsFollow(rest: Text, base: Text)
    ensures |ExactParts(0)| == 4
    ensures FollowsUrl(Ascii(ExactParts(0)[1]) + (base + rest))
    ensures forall more :: FollowsUrl(Ascii(ExactParts(0)[2]) + more)
    ensures FollowsUrl(Ascii(ExactParts(0)[3]))
  {
    var parts := ExactParts(0);
    BeginsWith(parts[1], "' ", base + rest);
    forall more ensures FollowsUrl(Ascii(parts[2]) + more) {
      BeginsWith(parts[2], "/'", more);
    }
    BeginsWith(parts[3], "/'", []);
    assert Ascii(parts[3]) + [] == Ascii(parts[3]);
  }

  /** Byte `Mark(i)` of what the replacement goes on with is in no source of a rule up to this one. */
  function Mark(i: nat): nat {
    if i == 0 || i == 3 then 7 else 11
  }

  lemma Marks(i: nat)
    requires i < 4
    ensures Mark(i) < |GoesOn(i)| && GoesOn(i)[Mark(i)] == if i == 0 || i == 3 then 'C' else 'W'
    ensures Lacks(GoesOn(i)[..Mark(i)], ';') && Lacks(GoesOn(i)[..Mark(i)], '{')
  {
    if i == 0 || i == 3 {
      LowerCaseGoesOn(i);
    } else {
      PathGoesOn(i);
    }
  }

  lemma LowerCaseGoesOn(i: nat)
    requires i == 0 || i == 3
    ensures |GoesOn(i)| > 7 && GoesOn(i)[7] == 'C'
    ensures Lacks(GoesOn(i)[..7], ';') && Lacks(GoesOn(i)[..7], '{')
  {
    var a := "toLowerCase()";
    assert |a| == 13 && a[7] == 'C' && Lacks(a, ';') && Lacks(a, '{');
    var b := if i == 0 then URL_TEST else PATH_TEST;
    assert a <= b;
    assert forall k :: 0 <= k < 13 ==> b[k] == a[k];
    hide URL_TEST, PATH_TEST;
  }

  lemma PathGoesOn(i: nat)
    requires i == 1 || i == 2
    ensures |GoesOn(i)| > 11 && GoesOn(i)[11] == 'W'
    ensures Lacks(GoesOn(i)[..11], ';') && Lacks(GoesOn(i)[..11], '{')
  {
    var a := "path.startsWith('/') ? path : ";
    assert |a| == 30 && a[11] == 'W' && Lacks(a, ';') && Lacks(a, '{');
    var b := if i == 1 then JOINED_PATH else JOINED_PATH_ESCAPED;
    assert a <= b;
    assert forall k :: 0 <= k < 30 ==> b[k] == a[k];
    hide JOINED_PATH, JOINED_PATH_ESCAPED;
  }

  lemma SourceBeforeBase(base: Text, x: Text)
    requires InQuotes(base) && FollowsUrl(x) && NoStart(Ascii(ExactSource(0)), x)
    ensures NoStart(Ascii(ExactSource(0)), base + x)
  {
    Openings(0);
    BeginsWith(ExactSource(0), "return ", []);
    assert Ascii(ExactSource(0)) + [] == Ascii(ExactSource(0));
    assert Parted("return ", 6, "' ") && Parted("return ", 6, "/'");
    assert AsciiByte(' ') == 0x20;
    hide Ascii, ExactSource, NoStart, Parted;
    if Ascii("' ") <= x {
      NoStartBefore(Ascii(ExactSource(0)), "return ", 6, base, "' ", x);
    } else {
      NoStartBefore(Ascii(ExactSource(0)), "return ", 6, base, "/'", x);
    }
  }

  lemma NoSourceInRest(i: nat, j: nat, base: Text)
    requires InQuotes(base) && i <= j < 4
    ensures NoStart(Ascii(ExactSource(i)), Remainder(j, base))
  {
    NothingBegins(Ascii(ExactSource(i)));
    if j == 0 {
      UrlPartsHold("ret");
      hide ExactSource, ExactParts, NoStart, NoWord, InQuotes, FollowsUrl;
      forall k | 0 < k < 4 ensures NoStart(Ascii(ExactSource(0)), Ascii(ExactParts(0)[k])) {
        SourceNoStart(0, ExactParts(0)[k]);
      }
      forall x | FollowsUrl(x) && NoStart(Ascii(ExactSource(0)), x) ensures NoStart(Ascii(ExactSource(0)), base + x) {
        SourceBeforeBase(base, x);
      }
      UrlPartsNoStart(Ascii(ExactSource(0)), base);
    }
  }

  lemma NoSourceGoesOn(i: nat, j: nat)
    requires i <= j < 4
    ensures NoWord(OpeningWord(i), GoesOn(j))
  {
    NoReturnInUrlTest();
    NoWordInPathTest();
    NoReturnInJoinedPaths();
    hide NoWord, URL_TEST, PATH_TEST, JOINED_PATH, JOINED_PATH_ESCAPED;
  }

  lemma ExactSourceIsShy(i: nat, j: nat, base: Text)
    requires InQuotes(base) && i <= j < 4
    ensures Shy(Ascii(ExactSource(i)), Filled(ExactParts(j), base), |Share(j)|)
    ensures |Share(j)| < |Ascii(ExactSource(i))|
  {
    Marks(j);
    MarkIsLacking(i, j);
    NoSourceGoesOn(i, j);
    NoSourceInRest(i, j, base);
    ExactIs(j, base);
    ShareIsShort(i, j);
    hide *;
    SourceIsShy(i, Share(j), GoesOn(j), Remainder(j, base), Mark(j));
  }

  lemma MarkIsLacking(i: nat, j: nat)
    requires i <= j < 4 && Mark(j) < |GoesOn(j)|
    requires GoesOn(j)[Mark(j)] == if j == 0 || j == 3 then 'C' else 'W'
    ensures IsPlainChar(GoesOn(j)[Mark(j)]) && Lacks(ExactSource(i), GoesOn(j)[Mark(j)])
  {
    SourceOfExact(i);
    hide ExactSource, GoesOn, Lacks;
  }

  lemma ShareIsShort(i: nat, j: nat)
    requires i < 4 && j < 4
    ensures |Share(j)| < |Ascii(ExactSource(i))|
  {
    SourceOfExact(i);
    hide ExactSource;
  }

  lemma ExactAgrees(j: nat, base: Text)
    requires j < 4
    ensures Agrees(Ascii(ExactSource(j)), Filled(ExactParts(j), base), |Share(j)|)
  {
    hide *;
    ExactIs(j, base);
    var more, y := ExactSource(j)[|Share(j)|..], Ascii(GoesOn(j)) + Remainder(j, base);
    ShareAndMore(j, more);
    AsciiConcat(Share(j), GoesOn(j));
    Reassociate(Ascii(Share(j)), Ascii(GoesOn(j)), Remainder(j, base));
    ReplacementEnds(j, base, y);
    AgreesUpTo(Ascii(Share(j)), Ascii(more), y);
  }

  lemma ShareAndMore(j: nat, more: string)
    requires j < 4 && |Share(j)| < |ExactSource(j)| && ExactSource(j)[..|Share(j)|] == Share(j)
    requires more == ExactSource(j)[|Share(j)|..]
    ensures Ascii(ExactSource(j)) == Ascii(Share(j)) + Ascii(more)
    ensures Ascii(more) != [] && !IdentifierContinue(Ascii(more)[|Ascii(more)| - 1])
  {
    LastOfSource(j);
    hide ExactSource, Share, Ascii, IdentifierContinue;
    assert ExactSource(j) == Share(j) + more;
    AsciiConcat(Share(j), more);
    EndsInNoName(more);
  }

  lemma ReplacementEnds(j: nat, base: Text, y: Text)
    requires j < 4 && Filled(ExactParts(j), base) == Ascii(Share(j)) + y && |Ascii(GoesOn(j))| <= |y|
    ensures y != [] && !IdentifierContinue(y[|y| - 1])
  {
    hide *;
    GoesOnSomehow(j);
    LastOfReplacement(j, base);
    NoIdentifierChars();
    var n := Filled(ExactParts(j), base);
    assert n[|n| - 1] == y[|y| - 1];
  }

  lemma GoesOnSomehow(j: nat)
    requires j < 4
    ensures Ascii(GoesOn(j)) != []
  {
    Marks(j);
    hide GoesOn;
  }

  lemma EndsInNoName(s: string)
    requires s != "" && s[|s| - 1] in [';', '{', ')', '}']
    ensures Ascii(s) != [] && !IdentifierContinue(Ascii(s)[|Ascii(s)| - 1])
  {
    NoIdentifierChars();
    hide IdentifierContinue, AsciiByte;
  }

  lemma NoIdentifierChars()
    ensures !IdentifierContinue(AsciiByte(';')) && !IdentifierContinue(AsciiByte('{'))
    ensures !IdentifierContinue(AsciiByte(')')) && !IdentifierContinue(AsciiByte('}'))
  {
    AsciiByteIsCode(';');
    AsciiByteIsCode('{');
    AsciiByteIsCode(')');
    AsciiByteIsCode('}');
  }

  lemma LastOfReplacement(j: nat, base: Text)
    requires j < 4
    ensures var n := Filled(ExactParts(j), base); n != [] && n[|n| - 1] == AsciiByte(if j < 3 then ';' else '{')
  {
    var parts := ExactParts(j);
    LastOfParts(j);
    FilledEnds(parts, base);
    hide ExactParts, Filled, AsciiByte;
  }

  lemma LastOfParts(j: nat)
    requires j < 4
    ensures var parts := ExactParts(j);
            && parts != [] && parts[|parts| - 1] != ""
            && parts[|parts| - 1][|parts[|parts| - 1]| - 1] == if j < 3 then ';' else '{'
  {
  }

  lemma {:induction false} FilledEnds(parts: seq<string>, base: Text)
    requires parts != [] && parts[|parts| - 1] != ""
    ensures var n, last := Filled(parts, base), parts[|parts| - 1];
            n != [] && n[|n| - 1] == AsciiByte(last[|last| - 1])
    decreases |parts|
  {
    FilledSteps(parts, base);
    hide AsciiByte, Filled;
    if |parts| > 1 {
      FilledEnds(parts[1..], base);
    }
  }

  /** No exact rule makes work for one before it, or for itself. */
  lemma ExactKeepsAway(i: nat, j: nat, base: Text)
    requires InQuotes(base) && i <= j < 4
    ensures KeepsAway(ConsoleExact(i, base), ConsoleExact(j, base))
  {
    hide ExactSource, ExactParts, Filled, Share, Shy, Agrees, Ascii, KeepsAway, InQuotes;
    ExactSourceIsShy(i, j, base);
    ExactAgrees(j, base);
    LiteralKeepsAway(Ascii(ExactSource(i)), Filled(ExactParts(i), base), Ascii(ExactSource(j)),
                     Filled(ExactParts(j), base), |Share(j)|);
  }
}
