/** What the identifier rules of the console write, and which literals begin nowhere in it. */
module CodeTests {
  import opened Bytes
  import opened LiteralSpec
  import opened ExpressionSpec
  import opened Stages
  import opened Profiles
  import opened StageEffects

  /** A base path as far as the code around it is concerned: it ends no string and begins no marker. */
  predicate InQuotes(base: Text) {
    && (base == [] || base[0] == SLASH)
    && forall b <- base :: b != 0x20 && b != DOUBLE_QUOTE && b != SINGLE_QUOTE && b != BACKSLASH && b != 0x7B
  }

  lemma AsciiConcat(a: string, b: string)
    ensures Ascii(a + b) == Ascii(a) + Ascii(b)
  {
    hide AsciiByte;
  }

  lemma AsciiParts(a: string, m: string, b: string, rest: Text)
    ensures Ascii(a + m + b) + rest == Ascii(a) + (Ascii(m) + (Ascii(b) + rest))
  {
    AsciiConcat(a + m, b);
    AsciiConcat(a, m);
    hide Ascii;
    Reassociate(Ascii(a) + Ascii(m), Ascii(b), rest);
    Reassociate(Ascii(a), Ascii(m), Ascii(b) + rest);
  }

  // Templates.

  const MARKER_CHARS: string := "{identifier}"

  lemma {:induction false} ExactOnRest(rule: Rule, a: Text, rest: Text, i: nat)
    requires rule.Valid() && rule.mode.Exact? && i <= |rest|
    ensures Substitute(rule, a + rest, |a| + i) == Substitute(rule, rest, i)
    decreases |rest| - i
  {
    hide At, Substitute;
    SubstituteUnfolds(rule, rest, i);
    SubstituteUnfolds(rule, a + rest, |a| + i);
    assert (a + rest)[|a|..] == rest;
    AtShifts(a + rest, |a|, i, rule.source);
    if i < |rest| {
      ExactOnRest(rule, a, rest, if At(rest, i, rule.source) then i + |rule.source| else i + 1);
    }
  }

  lemma MarkerBytes()
    ensures MARKER == Ascii(MARKER_CHARS) && |MARKER| == 12 && MARKER[0] == 0x7B
  {
    assert |MARKER_CHARS| == 12;
    assert AsciiByte('{') == 0x7B;
  }

  /** What comes before the first marker is copied. */
  lemma RenderedCopies(id: Text, a: Text, rest: Text)
    requires 0x7B !in a
    ensures RenderTemplate(a + rest, id) == a + RenderTemplate(rest, id)
  {
    MarkerBytes();
    hide At, Substitute, MARKER;
    var rule := Rule(MARKER, Exact(id));
    forall j | 0 <= j < |a| ensures !At(a + rest, j, MARKER) {
      if At(a + rest, j, MARKER) {
        AtHasByte(a + rest, j, MARKER, j);
      }
    }
    SubstituteSkips(rule, a + rest, 0, |a|);
    ExactOnRest(rule, a, rest, 0);
    assert (a + rest)[0..|a|] == a;
  }

  lemma RenderedMarker(id: Text, rest: Text)
    ensures RenderTemplate(Ascii(MARKER_CHARS) + rest, id) == id + RenderTemplate(rest, id)
  {
    MarkerBytes();
    hide At, Substitute, MARKER;
    var rule, m := Rule(MARKER, Exact(id)), MARKER;
    assert m + rest == m + rest;
    AtBegins(m + rest, 0, m);
    assert (m + rest)[0..] == m + rest;
    SubstituteUnfolds(rule, m + rest, 0);
    ExactOnRest(rule, m, rest, 0);
  }

  lemma RenderedNothing(id: Text)
    ensures RenderTemplate([], id) == []
  {
    MarkerBytes();
  }

  /** One part of a template: some text, a marker, some text. */
  lemma RenderedPart(id: Text, a: string, b: string, rest: Text)
    requires '{' !in a && '{' !in b
    ensures RenderTemplate(Ascii(a + MARKER_CHARS + b) + rest, id) ==
            Ascii(a) + (id + (Ascii(b) + RenderTemplate(rest, id)))
  {
    AsciiParts(a, MARKER_CHARS, b, rest);
    NoBrace(a);
    NoBrace(b);
    hide RenderTemplate, Ascii;
    RenderedCopies(id, Ascii(a), Ascii(MARKER_CHARS) + (Ascii(b) + rest));
    RenderedMarker(id, Ascii(b) + rest);
    RenderedCopies(id, Ascii(b), rest);
  }

  lemma NoBrace(s: string)
    requires '{' !in s
    ensures 0x7B !in Ascii(s)
  {
    hide AsciiByte;
    forall k | 0 <= k < |s| ensures Ascii(s)[k] != 0x7B {
      AsciiByteIsCode(s[k]);
    }
  }

  /** What the identifier rules write behind the first comparison with the base path. */
  function Test(id: Text, base: Text, end: string): Text {
    Ascii("\"||") + (id + (Ascii(".startsWith(\"") + (base + SecondPart(id, base, end))))
  }

  function SecondPart(id: Text, base: Text, end: string): Text {
    Ascii("/\")?") + (id + (Ascii(":\"") + (base + LastPart(id, end))))
  }

  function LastPart(id: Text, end: string): Text {
    Ascii("/\".concat(") + (id + Ascii(".replace(/^\\/+/,\"\")))" + end))
  }

  function TestParts(end: string): seq<string> {
    ["\"||" + "{identifier}" + ".startsWith(\"",
     "/\")?" + "{identifier}" + ":\"",
     "/\".concat(" + "{identifier}" + (".replace(/^\\/+/,\"\")))" + end)]
  }

  lemma FilledSteps(parts: seq<string>, base: Text)
    requires |parts| > 0
    ensures Filled(parts, base) == if |parts| == 1 then Ascii(parts[0])
                                   else Ascii(parts[0]) + (base + Filled(parts[1..], base))
  {
    hide Ascii;
    if |parts| > 1 {
      Reassociate(Ascii(parts[0]), base, Filled(parts[1..], base));
    }
  }

  lemma TestRenders(id: Text, base: Text, end: string)
    requires 0x7B !in base && '{' !in end
    ensures RenderTemplate(Filled(TestParts(end), base), id) == Test(id, base, end)
  {
    var parts := TestParts(end);
    FilledSteps(parts, base);
    FilledSteps(parts[1..], base);
    FilledSteps(parts[2..], base);
    RenderedNothing(id);
    var last := ".replace(/^\\/+/,\"\")))" + end;
    NoBraceInTest(end);
    RenderedPart(id, "/\".concat(", last, []);
    RenderedPart(id, "/\")?", ":\"", base + Filled(parts[2..], base));
    RenderedPart(id, "\"||", ".startsWith(\"", base + Filled(parts[1..], base));
    hide RenderTemplate, Ascii, Filled;
    RenderedCopies(id, base, Filled(parts[2..], base));
    RenderedCopies(id, base, Filled(parts[1..], base));
    assert parts[1..][1..] == parts[2..];
    assert Ascii(parts[2]) + [] == Ascii(parts[2]) && Ascii(last) + [] == Ascii(last);
  }

  lemma NoBraceInTest(end: string)
    requires '{' !in end
    ensures '{' !in ".replace(/^\\/+/,\"\")))" + end
  {
  }

  lemma TemplateRenders(id: Text, base: Text, start: string, end: string, written: Text)
    requires 0x7B !in base && '{' !in end
    requires forall rest :: RenderTemplate(Ascii(start) + rest, id) == written + RenderTemplate(rest, id)
    ensures RenderTemplate(Filled(ConsoleTemplate(start, end), base), id) ==
            written + (id + (Ascii("===\"") + (base + Test(id, base, end))))
  {
    var parts := ConsoleTemplate(start, end);
    assert parts[1..] == TestParts(end);
    FilledSteps(parts, base);
    TestRenders(id, base, end);
    NoBrace("===\"");
    hide RenderTemplate, Ascii, Filled;
    var rest := base + Filled(TestParts(end), base);
    AsciiParts(start, MARKER_CHARS, "===\"", rest);
    RenderedMarker(id, Ascii("===\"") + rest);
    RenderedCopies(id, Ascii("===\""), rest);
    RenderedCopies(id, base, Filled(TestParts(end), base));
  }

  // Where a literal can begin in it.

  predicate FollowsName(x: Text) {
    Ascii("=") <= x || Ascii(".st") <= x || Ascii(".re") <= x || Ascii(":\"/") <= x
  }

  predicate FollowsBase(x: Text) {
    Ascii("\"||") <= x || Ascii("/\")") <= x || Ascii("/\".") <= x
  }

  /** The literal begins neither in the fixed parts of a test nor in the two others, whatever follows them. */
  ghost predicate IsForeign(v: Text, id: Text, base: Text, end: string) {
    && NoStart(v, Ascii("=")) && NoStart(v, Ascii("===\"")) && NoStart(v, Ascii("\"||"))
    && NoStart(v, Ascii(".startsWith(\"")) && NoStart(v, Ascii("/\")?")) && NoStart(v, Ascii(":\""))
    && NoStart(v, Ascii("/\".concat(")) && NoStart(v, Ascii(".replace(/^\\/+/,\"\")))" + end))
    && NoStart(v, Ascii(".replace(/\\/\\/+/,\"/\"),"))
    && (forall x :: FollowsName(x) && NoStart(v, x) ==> NoStart(v, id + x))
    && (forall x :: FollowsBase(x) && NoStart(v, x) ==> NoStart(v, base + x))
  }

  lemma ForeignName(v: Text, id: Text, base: Text, end: string, x: Text)
    requires IsForeign(v, id, base, end) && FollowsName(x) && NoStart(v, x)
    ensures NoStart(v, id + x)
  {
    hide FollowsName, NoStart;
  }

  lemma ForeignBase(v: Text, id: Text, base: Text, end: string, x: Text)
    requires IsForeign(v, id, base, end) && FollowsBase(x) && NoStart(v, x)
    ensures NoStart(v, base + x)
  {
    hide FollowsBase, NoStart;
  }

  lemma ForeignParts(v: Text, id: Text, base: Text, end: string)
    requires IsForeign(v, id, base, end)
    ensures NoStart(v, Ascii("=")) && NoStart(v, Ascii("===\"")) && NoStart(v, Ascii("\"||"))
    ensures NoStart(v, Ascii(".startsWith(\"")) && NoStart(v, Ascii("/\")?")) && NoStart(v, Ascii(":\""))
    ensures NoStart(v, Ascii("/\".concat(")) && NoStart(v, Ascii(".replace(/^\\/+/,\"\")))" + end))
    ensures NoStart(v, Ascii(".replace(/\\/\\/+/,\"/\"),"))
  {
    hide FollowsName, FollowsBase, NoStart, Ascii;
  }

  lemma BeginsWith(s: string, a: string, rest: Text)
    requires a <= s
    ensures Ascii(a) <= Ascii(s) + rest
  {
    hide AsciiByte;
    assert (Ascii(s) + rest)[..|a|] == Ascii(s)[..|a|] == Ascii(a);
  }

  lemma NothingBegins(v: Text)
    ensures NoStart(v, [])
  {
  }

  lemma LastIsForeign(v: Text, id: Text, base: Text, end: string)
    requires IsForeign(v, id, base, end)
    ensures NoStart(v, LastPart(id, end))
  {
    var close := ".replace(/^\\/+/,\"\")))" + end;
    BeginsWith(close, ".re", []);
    assert Ascii(close) + [] == Ascii(close);
    ForeignParts(v, id, base, end);
    hide *;
    NameFollowedBy(Ascii(close));
    ForeignName(v, id, base, end, Ascii(close));
    LastPartIs(id, end);
    NoStartConcat(v, Ascii("/\".concat("), id + Ascii(close));
  }

  lemma NameFollowedBy(x: Text)
    ensures Ascii("=") <= x || Ascii(".st") <= x || Ascii(".re") <= x || Ascii(":\"/") <= x ==> FollowsName(x)
  {
  }

  lemma BaseFollowedBy(x: Text)
    ensures Ascii("\"||") <= x || Ascii("/\")") <= x || Ascii("/\".") <= x ==> FollowsBase(x)
  {
  }

  lemma LastPartIs(id: Text, end: string)
    ensures LastPart(id, end) == Ascii("/\".concat(") + (id + Ascii(".replace(/^\\/+/,\"\")))" + end))
  {
  }

  lemma SecondPartIs(id: Text, base: Text, end: string)
    ensures SecondPart(id, base, end) == Ascii("/\")?") + (id + (Ascii(":\"") + (base + LastPart(id, end))))
  {
  }

  lemma TestIs(id: Text, base: Text, end: string)
    ensures Test(id, base, end) == Ascii("\"||") + (id + (Ascii(".startsWith(\"") + (base + SecondPart(id, base, end))))
  {
  }

  lemma SecondIsForeign(v: Text, id: Text, base: Text, end: string)
    requires IsForeign(v, id, base, end) && (base == [] || base[0] == SLASH)
    ensures NoStart(v, SecondPart(id, base, end))
  {
    ForeignParts(v, id, base, end);
    LastIsForeign(v, id, base, end);
    LastPartIs(id, end);
    var last := LastPart(id, end);
    BeginsWith("/\".concat(", "/\".", id + Ascii(".replace(/^\\/+/,\"\")))" + end));
    ColonQuoteSlash(base, last);
    hide *;
    SecondPartIs(id, base, end);
    BaseFollowedBy(last);
    ForeignBase(v, id, base, end, last);
    NoStartConcat(v, Ascii(":\""), base + last);
    NameFollowedBy(Ascii(":\"") + (base + last));
    ForeignName(v, id, base, end, Ascii(":\"") + (base + last));
    NoStartConcat(v, Ascii("/\")?"), id + (Ascii(":\"") + (base + last)));
  }

  lemma ColonQuoteSlash(base: Text, last: Text)
    requires (base == [] || base[0] == SLASH) && Ascii("/\".") <= last
    ensures Ascii(":\"/") <= Ascii(":\"") + (base + last)
  {
    assert Ascii("/\".")[0] == AsciiByte('/') == SLASH;
    assert Ascii(":\"/") == Ascii(":\"") + [SLASH];
    assert last[0] == SLASH;
  }

  lemma TestIsForeign(v: Text, id: Text, base: Text, end: string)
    requires IsForeign(v, id, base, end) && (base == [] || base[0] == SLASH)
    ensures NoStart(v, id + (Ascii("===\"") + (base + Test(id, base, end))))
  {
    ForeignParts(v, id, base, end);
    SecondIsForeign(v, id, base, end);
    SecondPartIs(id, base, end);
    TestIs(id, base, end);
    var second, test := SecondPart(id, base, end), Test(id, base, end);
    BeginsWith("/\")?", "/\")", id + (Ascii(":\"") + (base + LastPart(id, end))));
    BeginsWith(".startsWith(\"", ".st", base + second);
    BeginsWith("\"||", "\"||", id + (Ascii(".startsWith(\"") + (base + second)));
    BeginsWith("===\"", "=", base + test);
    hide *;
    BaseFollowedBy(second);
    ForeignBase(v, id, base, end, second);
    var starts := Ascii(".startsWith(\"") + (base + second);
    NoStartConcat(v, Ascii(".startsWith(\""), base + second);
    NameFollowedBy(starts);
    ForeignName(v, id, base, end, starts);
    NoStartConcat(v, Ascii("\"||"), id + starts);
    BaseFollowedBy(test);
    ForeignBase(v, id, base, end, test);
    NoStartConcat(v, Ascii("===\""), base + test);
    NameFollowedBy(Ascii("===\"") + (base + test));
    ForeignName(v, id, base, end, Ascii("===\"") + (base + test));
  }

  // Words: literals that begin with a name, and then with something that neither a name nor a base path holds.

  /** `w` begins `s`, of which byte `i` ends a name and byte `j` a base path. */
  predicate FitsNowhere(s: string, w: string, i: nat, j: nat) {
    && w <= s && ArePlain(s)
    && NoWord(w, "=") && NoWord(w, "===\"") && NoWord(w, "\"||") && NoWord(w, ".startsWith(\"") && NoWord(w, "/\")?")
    && NoWord(w, ":\"") && NoWord(w, "/\".concat(") && NoWord(w, ".replace(/^\\/+/,\"\")))") && NoWord(w, "}")
    && NoWord(w, ".replace(/\\/\\/+/,\"/\"),")
    && Parted(s, i, "=") && Parted(s, i, ".st") && Parted(s, i, ".re") && Parted(s, i, ":\"/")
    && Parted(s, j, "\"||") && Parted(s, j, "/\")") && Parted(s, j, "/\".")
  }

  lemma WordNoStart(v: Text, s: string, w: string, literal: string)
    requires w <= s && ArePlain(s) && Ascii(s) <= v && NoWord(w, literal)
    ensures NoStart(v, Ascii(literal))
  {
    WordBegins(v, s, w);
    assert forall k :: 0 <= k < |w| ==> w[k] == s[k];
    hide Ascii, NoStart, NoWord;
    NoStartInLiteral(v, w, literal);
  }

  lemma WordBegins(v: Text, s: string, w: string)
    requires w <= s && Ascii(s) <= v
    ensures Ascii(w) <= v
  {
    hide AsciiByte;
    assert v[..|w|] == v[..|s|][..|w|] == Ascii(w);
  }

  lemma CloseNoStart(v: Text, s: string, w: string, end: string)
    requires w <= s && ArePlain(s) && Ascii(s) <= v && (end == "" || end == "}")
    requires NoWord(w, ".replace(/^\\/+/,\"\")))") && NoWord(w, "}")
    ensures NoStart(v, Ascii(".replace(/^\\/+/,\"\")))" + end))
  {
    var close := ".replace(/^\\/+/,\"\")))";
    AsciiConcat(close, end);
    assert Ascii("") == [];
    NothingBegins(v);
    WordNoStart(v, s, w, close);
    WordNoStart(v, s, w, "}");
    hide Ascii, NoStart, NoWord;
    NoStartConcat(v, Ascii(close), Ascii(end));
  }

  lemma WordIsForeign(v: Text, s: string, w: string, i: nat, j: nat, id: Text, base: Text, end: string)
    requires FitsNowhere(s, w, i, j) && Ascii(s) <= v && i < |s| && j < |s|
    requires AsciiByte(s[i]) !in id && AsciiByte(s[j]) !in base && (end == "" || end == "}")
    ensures IsForeign(v, id, base, end)
  {
    hide Ascii, NoStart, NoWord, Parted, ArePlain, FollowsName, FollowsBase, AsciiByte;
    WordNoStart(v, s, w, "=");
    WordNoStart(v, s, w, "===\"");
    WordNoStart(v, s, w, "\"||");
    WordNoStart(v, s, w, ".startsWith(\"");
    WordNoStart(v, s, w, "/\")?");
    WordNoStart(v, s, w, ":\"");
    WordNoStart(v, s, w, "/\".concat(");
    CloseNoStart(v, s, w, end);
    WordNoStart(v, s, w, ".replace(/\\/\\/+/,\"/\"),");
    forall x | FollowsName(x) && NoStart(v, x) ensures NoStart(v, id + x) {
      WordBeforeName(v, s, w, i, j, id, x);
    }
    forall x | FollowsBase(x) && NoStart(v, x) ensures NoStart(v, base + x) {
      WordBeforeBase(v, s, w, i, j, base, x);
    }
  }

  lemma WordBeforeName(v: Text, s: string, w: string, i: nat, j: nat, id: Text, x: Text)
    requires FitsNowhere(s, w, i, j) && Ascii(s) <= v && i < |s| && AsciiByte(s[i]) !in id
    requires FollowsName(x) && NoStart(v, x)
    ensures NoStart(v, id + x)
  {
    hide Ascii, NoStart, NoWord, Parted, ArePlain, AsciiByte;
    if Ascii("=") <= x {
      NoStartBefore(v, s, i, id, "=", x);
    } else if Ascii(".st") <= x {
      NoStartBefore(v, s, i, id, ".st", x);
    } else if Ascii(".re") <= x {
      NoStartBefore(v, s, i, id, ".re", x);
    } else {
      NoStartBefore(v, s, i, id, ":\"/", x);
    }
  }

  lemma WordBeforeBase(v: Text, s: string, w: string, i: nat, j: nat, base: Text, x: Text)
    requires FitsNowhere(s, w, i, j) && Ascii(s) <= v && j < |s| && AsciiByte(s[j]) !in base
    requires FollowsBase(x) && NoStart(v, x)
    ensures NoStart(v, base + x)
  {
    hide Ascii, NoStart, NoWord, Parted, ArePlain, AsciiByte;
    if Ascii("\"||") <= x {
      NoStartBefore(v, s, j, base, "\"||", x);
    } else if Ascii("/\")") <= x {
      NoStartBefore(v, s, j, base, "/\")", x);
    } else {
      NoStartBefore(v, s, j, base, "/\".", x);
    }
  }

  lemma ReturnFits()
    ensures FitsNowhere("return ", "ret", 6, 6)
  {
  }

  lemma IfFits()
    ensures FitsNowhere("if (", "if ", 2, 2)
  {
  }

  lemma ReturnQuoteFits()
    ensures FitsNowhere("return\"/", "ret", 6, 6)
  {
  }

  lemma BasenameSpaceFits()
    ensures FitsNowhere("basename: ", "bas", 8, 9)
  {
  }

  lemma BasenameQuotesFits()
    ensures FitsNowhere("basename:\"\"", "bas", 8, 9)
  {
  }

  lemma BasenameBackslashFits()
    ensures FitsNowhere("basename:\\", "bas", 8, 9)
  {
  }
}
