/** The identifier rules of the console, and what no rule before them finds in what they write. */
module IdentifierRules {
  import opened Bytes
  import opened LiteralSpec
  import opened ExpressionSpec
  import opened Stages
  import opened Profiles
  import opened StageEffects
  import opened CodeTests
  import opened ExactRules
  import opened MemberRules

  // The identifier rules.

  function TemplatePrefix(i: nat): string
    requires i < 3
  {
    CONSOLE_TEMPLATES[i].0
  }

  function TemplateSuffix(i: nat): string
    requires i < 3
  {
    CONSOLE_TEMPLATES[i].1
  }

  function ConsoleIdentifier(i: nat, base: Text): Spec
    requires i < 3
  {
    ExpressionStage(Pattern(Ascii(TemplatePrefix(i)), Ascii(TemplateSuffix(i)),
                            Template(Filled(CONSOLE_TEMPLATES[i].2, base)), Identifier))
  }

  function IdentifierMatch(i: nat, id: Text): Text
    requires i < 3
  {
    Ascii(TemplatePrefix(i)) + id + Ascii(TemplateSuffix(i))
  }

  /** What match and replacement have in common. */
  function Common(i: nat): string {
    if i == 0 then "" else if i == 1 then "return" else ")),"
  }

  function Closing(i: nat): string {
    if i == 2 then "}" else ""
  }

  function Comparison(i: nat, id: Text, base: Text): Text {
    Ascii("===\"") + (base + Test(id, base, Closing(i)))
  }

  /** What is written behind the first name. */
  function Compared(i: nat, id: Text, base: Text): Text {
    if i == 2 then Ascii("=") + (id + (Ascii(".replace(/\\/\\/+/,\"/\"),") + (id + Comparison(i, id, base))))
    else Comparison(i, id, base)
  }

  lemma TemplatesAre(i: nat)
    requires i < 3
    ensures CONSOLE_TEMPLATES[i].2 ==
            if i == 0 then ConsoleTemplate("(", "") else if i == 1 then ConsoleTemplate("return(", "")
            else ConsoleTemplate(")),(" + "{identifier}" + "=" + "{identifier}" + ".replace(/\\/\\/+/,\"/\"),", "}")
  {
  }

  lemma StartRenders(i: nat, id: Text, rest: Text)
    requires i < 2
    ensures RenderTemplate(Ascii(Common(i) + "(") + rest, id) == Ascii(Common(i) + "(") + RenderTemplate(rest, id)
  {
    NoBrace(Common(i) + "(");
    RenderedCopies(id, Ascii(Common(i) + "("), rest);
  }

  lemma AssignmentRenders(id: Text, rest: Text)
    ensures var start := ")),(" + "{identifier}" + "=" + "{identifier}" + ".replace(/\\/\\/+/,\"/\"),";
            RenderTemplate(Ascii(start) + rest, id) ==
            Ascii(")),(")
              + (id + (Ascii("=") + (id + (Ascii(".replace(/\\/\\/+/,\"/\"),") + RenderTemplate(rest, id)))))
  {
    var replace := ".replace(/\\/\\/+/,\"/\"),";
    NoBrace(replace);
    AsciiParts(")),(" + "{identifier}" + "=", "{identifier}", replace, rest);
    RenderedPart(id, ")),(", "=", Ascii(MARKER_CHARS) + (Ascii(replace) + rest));
    hide RenderTemplate, Ascii;
    RenderedMarker(id, Ascii(replace) + rest);
    RenderedCopies(id, Ascii(replace), rest);
  }

  lemma FourParts(a: Text, b: Text, c: Text, d: Text, rest: Text)
    ensures a + (b + (c + (b + d))) + rest == a + (b + (c + (b + (d + rest))))
  {
    Reassociate(a, b + (c + (b + d)), rest);
    Reassociate(b, c + (b + d), rest);
    Reassociate(c, b + d, rest);
    Reassociate(b, d, rest);
  }

  lemma AssignmentRendersTemplate(id: Text, base: Text)
    requires 0x7B !in base
    ensures var start := ")),(" + "{identifier}" + "=" + "{identifier}" + ".replace(/\\/\\/+/,\"/\"),";
            RenderTemplate(Filled(ConsoleTemplate(start, "}"), base), id) ==
              Ascii(")),(") + (id + Compared(2, id, base))
  {
    var replace := ".replace(/\\/\\/+/,\"/\"),";
    var start := ")),(" + "{identifier}" + "=" + "{identifier}" + replace;
    var written := Ascii(")),(") + (id + (Ascii("=") + (id + Ascii(replace))));
    ComparedIs(id, base);
    hide RenderTemplate, Filled, Ascii, ConsoleTemplate, Comparison, Compared, Test;
    forall rest ensures RenderTemplate(Ascii(start) + rest, id) == written + RenderTemplate(rest, id) {
      AssignmentRenders(id, rest);
      FourParts(Ascii(")),("), id, Ascii("="), Ascii(replace), RenderTemplate(rest, id));
    }
    TemplateRenders(id, base, start, "}", written);
    FourParts(Ascii(")),("), id, Ascii("="), Ascii(replace), id + (Ascii("===\"") + (base + Test(id, base, "}"))));
  }

  lemma ComparedIs(id: Text, base: Text)
    ensures Compared(2, id, base) ==
            Ascii("=") + (id
              + (Ascii(".replace(/\\/\\/+/,\"/\"),") + (id + (Ascii("===\"") + (base + Test(id, base, "}"))))))
  {
  }

  lemma IdentifierRenders(i: nat, id: Text, base: Text)
    requires i < 3 && InQuotes(base)
    ensures RenderTemplate(Filled(CONSOLE_TEMPLATES[i].2, base), id) ==
            Ascii(Common(i) + "(") + (id + Compared(i, id, base))
  {
    TemplatesAre(i);
    NoBraceInBase(base);
    assert Common(0) + "(" == "(" && Common(1) + "(" == "return(" && Common(2) + "(" == ")),(";
    hide *;
    if i < 2 {
      ComparisonRenders(i, id, base);
    } else {
      AssignmentRendersTemplate(id, base);
    }
  }

  lemma ComparisonRenders(i: nat, id: Text, base: Text)
    requires i < 2 && 0x7B !in base
    ensures RenderTemplate(Filled(ConsoleTemplate(Common(i) + "(", ""), base), id) ==
            Ascii(Common(i) + "(") + (id + Compared(i, id, base))
  {
    hide RenderTemplate, Filled, Ascii, ConsoleTemplate, Test, Common;
    var start := Common(i) + "(";
    forall rest ensures RenderTemplate(Ascii(start) + rest, id) == Ascii(start) + RenderTemplate(rest, id) {
      StartRenders(i, id, rest);
    }
    TemplateRenders(id, base, start, "", Ascii(start));
  }

  lemma NoBraceInBase(base: Text)
    requires InQuotes(base)
    ensures 0x7B !in base
  {
  }

  lemma ComparedNoStart(v: Text, i: nat, id: Text, base: Text)
    requires i < 3 && IsForeign(v, id, base, Closing(i)) && (base == [] || base[0] == SLASH)
    ensures NoStart(v, id + Compared(i, id, base))
  {
    TestIsForeign(v, id, base, Closing(i));
    ForeignParts(v, id, base, Closing(i));
    ComparedIs(id, base);
    var replace := ".replace(/\\/\\/+/,\"/\"),";
    BeginsWith(replace, ".re", id + Comparison(i, id, base));
    BeginsWith("=", "=", id + (Ascii(replace) + (id + Comparison(i, id, base))));
    hide NoStart, Ascii, IsForeign, FollowsBase, Test;
    if i == 2 {
      var tail := Ascii(replace) + (id + Comparison(i, id, base));
      NoStartConcat(v, Ascii(replace), id + Comparison(i, id, base));
      ForeignName(v, id, base, Closing(i), tail);
      NoStartConcat(v, Ascii("="), id + tail);
      ForeignName(v, id, base, Closing(i), Ascii("=") + (id + tail));
    }
  }

  /** A match that an identifier rule cannot touch: no equals sign, and the end of no name or opening bracket. */
  predicate EndsCode(v: Text) {
    && v != [] && AsciiByte('=') !in v
    && !IdentifierContinue(v[|v| - 1]) && v[|v| - 1] != AsciiByte('(')
  }

  lemma ForeignIsShy(v: Text, i: nat, id: Text, base: Text)
    requires i < 3 && NoStart(v, id + Compared(i, id, base)) && EndsCode(v)
    requires forall b <- id :: IdentifierContinue(b)
    ensures Shy(v, Ascii(Common(i) + "(") + (id + Compared(i, id, base)), |Ascii(Common(i))|)
  {
    AsciiConcat(Common(i), "(");
    ComparedBegins(i, id, base);
    hide NoStart, IdentifierContinue, Compared, Common, Shy, AsciiByte;
    assert Ascii("(") == [AsciiByte('(')];
    hide Ascii;
    ShyOfHole(v, Ascii(Common(i)), AsciiByte('('), id, Compared(i, id, base), AsciiByte('='));
  }

  lemma ComparedBegins(i: nat, id: Text, base: Text)
    ensures Compared(i, id, base) != [] && Compared(i, id, base)[0] == AsciiByte('=')
  {
    assert Ascii("=")[0] == AsciiByte('=') == Ascii("===\"")[0];
    hide Ascii, AsciiByte, Test;
  }

  lemma IdentifierBytes(id: Text)
    requires IsExpression(Identifier, id)
    ensures id != [] && (forall b <- id :: IdentifierContinue(b))
    ensures AsciiByte(' ') !in id && AsciiByte(':') !in id && AsciiByte('=') !in id && AsciiByte('"') !in id
    ensures SLASH !in id && AsciiByte(')') !in id
  {
    ExpressionBytes(Identifier, id);
    assert AsciiByte(' ') == 0x20 && AsciiByte(':') == 0x3A && AsciiByte('=') == 0x3D && AsciiByte('"') == 0x22;
    assert AsciiByte(')') == 0x29;
    hide IsExpression;
  }

  lemma ClosingBytes()
    ensures forall c :: c == ';' || c == '{' || c == ')' || c == '}' ==>
              !IdentifierContinue(AsciiByte(c)) && AsciiByte(c) != AsciiByte('(')
  {
    NoIdentifierChars();
    assert AsciiByte(';') != AsciiByte('(') && AsciiByte('{') != AsciiByte('(');
    assert AsciiByte(')') != AsciiByte('(') && AsciiByte('}') != AsciiByte('(');
  }

  lemma SourceIsShyOfTest(i: nat, k: nat, id: Text, base: Text)
    requires i < 4 && k < 3 && InQuotes(base) && IsExpression(Identifier, id)
    ensures Shy(Ascii(ExactSource(i)), Ascii(Common(k) + "(") + (id + Compared(k, id, base)), |Ascii(Common(k))|)
  {
    ReturnFits();
    IfFits();
    ClosingBytes();
    ExactSourceBytes(i);
    Openings(i);
    OpeningEnds(i);
    BaseLacks(base);
    ClosingIs(k);
    OpeningFits(i);
    hide FitsNowhere, ExactSource, Opening, OpeningWord, Ascii, AsciiByte, InQuotes, IsExpression, IsForeign, Compared,
      Common,
      Shy, NoStart, IdentifierContinue;
    IdentifierBytes(id);
    var v, n := Ascii(ExactSource(i)), if i < 3 then 6 else 2;
    WordIsForeign(v, Opening(i), OpeningWord(i), n, n, id, base, Closing(k));
    ComparedNoStart(v, k, id, base);
    ForeignIsShy(v, k, id, base);
  }

  lemma ClosingIs(k: nat)
    ensures Closing(k) == "" || Closing(k) == "}"
  {
  }

  lemma OpeningFits(i: nat)
    ensures var n := if i < 3 then 6 else 2; FitsNowhere(Opening(i), OpeningWord(i), n, n)
  {
    ReturnFits();
    IfFits();
    hide FitsNowhere;
  }

  lemma MemberIsShyOfTest(i: nat, d: Text, k: nat, id: Text, base: Text)
    requires i < 4 && k < 3 && InQuotes(base) && IsExpression(Identifier, id) && IsExpression(MemberExpression, d)
    ensures Shy(MemberMatch(i, d), Ascii(Common(k) + "(") + (id + Compared(k, id, base)), |Ascii(Common(k))|)
  {
    hide *;
    ClosingBytes();
    MemberBytes(i, d);
    Basenames(i);
    BaseLacks(base);
    ClosingIs(k);
    BasenameFitsNowhere(i);
    IdentifierBytes(id);
    var v := MemberMatch(i, d);
    WordIsForeign(v, Basename(i), "bas", 8, 9, id, base, Closing(k));
    ComparedNoStart(v, k, id, base);
    CodeEnds(v, ')');
    ForeignIsShy(v, k, id, base);
  }

  lemma CodeEnds(v: Text, c: char)
    requires v != [] && AsciiByte('=') !in v && v[|v| - 1] == AsciiByte(c)
    requires c == ';' || c == '{' || c == ')' || c == '}'
    ensures EndsCode(v)
  {
    ClosingBytes();
    hide AsciiByte, IdentifierContinue;
  }

  lemma BasenameFitsNowhere(i: nat)
    requires i < 4
    ensures FitsNowhere(Basename(i), "bas", 8, 9)
  {
    BasenameSpaceFits();
    BasenameQuotesFits();
    BasenameBackslashFits();
    hide FitsNowhere;
  }

  // The identifier rules and themselves.

  lemma TemplateShape(i: nat)
    requires i < 3
    ensures |TemplatePrefix(i)| > 2 && |TemplateSuffix(i)| > 6 && Lacks(TemplatePrefix(i), '=')
            && Lacks(TemplateSuffix(i), '=')
    ensures Common(i) <= TemplatePrefix(i) && |TemplatePrefix(i)| + |TemplateSuffix(i)| > 18
    ensures TemplateSuffix(i)[|TemplateSuffix(i)| - 1] == if i < 2 then ')' else '}'
    ensures TemplateSuffix(i)[0] == '.'
  {
  }

  lemma IdentifierMatchIs(i: nat, id: Text)
    requires i < 3
    ensures IdentifierMatch(i, id) == Ascii(TemplatePrefix(i)) + id + Ascii(TemplateSuffix(i))
  {
  }

  lemma IdentifierMatchBytes(i: nat, id: Text)
    requires i < 3 && IsExpression(Identifier, id)
    ensures var v := IdentifierMatch(i, id);
            && |v| > 18 && AsciiByte('=') !in v && v[|v| - 1] == AsciiByte(if i < 2 then ')' else '}')
            && Ascii(TemplatePrefix(i)) <= v && EndsCode(v)
  {
    TemplateShape(i);
    IdentifierBytes(id);
    IdentifierMatchIs(i, id);
    AsciiLacks(TemplatePrefix(i), '=');
    AsciiLacks(TemplateSuffix(i), '=');
    hide TemplatePrefix, TemplateSuffix, IdentifierMatch, AsciiByte, IsExpression, Lacks, Common, EndsCode;
    CodeEnds(IdentifierMatch(i, id), if i < 2 then ')' else '}');
  }

  lemma ReturnIsShyOfTest(d: Text, k: nat, id: Text, base: Text)
    requires k < 3 && InQuotes(base) && IsExpression(Identifier, id) && IsExpression(Identifier, d)
    ensures Shy(IdentifierMatch(1, d), Ascii(Common(k) + "(") + (id + Compared(k, id, base)), |Ascii(Common(k))|)
  {
    BeginsWith("return\"/\".concat(", "return\"/", d + Ascii(TemplateSuffix(1)));
    Reassociate(Ascii(TemplatePrefix(1)), d, Ascii(TemplateSuffix(1)));
    var v := IdentifierMatch(1, d);
    assert Ascii("return\"/") <= v;
    hide *;
    IdentifierMatchBytes(1, d);
    BaseLacks(base);
    ClosingIs(k);
    ReturnQuoteFits();
    IdentifierBytes(id);
    WordIsForeign(v, "return\"/", "ret", 6, 6, id, base, Closing(k));
    ComparedNoStart(v, k, id, base);
    ForeignIsShy(v, k, id, base);
  }

  /** A literal that begins with a quoted slash and a dot does not begin at a quoted base path. */
  lemma QuoteNoStart(v: Text, base: Text, x: Text)
    requires Ascii("\"/\".") <= v && InQuotes(base) && NoStart(v, x)
    requires base == [] ==> Clashes(v, 1, x)
    requires |base| == 1 ==> Clashes(v, 2, x)
    ensures NoStart(v, Ascii("\"") + (base + x))
  {
    QuotedSlash(v);
    hide At, NoStart, Ascii, Clashes;
    var q := Ascii("\"");
    assert q == [DOUBLE_QUOTE];
    NoStartWithout(v, base);
    NoStartConcat(v, base, x);
    forall rest: Text ensures !At([DOUBLE_QUOTE] + (base + x) + rest, 0, v) {
      if At([DOUBLE_QUOTE] + (base + x) + rest, 0, v) {
        QuotedBaseDiffers(v, base, x, rest);
      }
    }
    QuoteThen(v, base + x);
  }

  lemma QuotedSlash(v: Text)
    requires Ascii("\"/\".") <= v
    ensures |v| > 3 && v[0] == DOUBLE_QUOTE && v[1] == SLASH && v[2] == DOUBLE_QUOTE && v[3] == DOT
    ensures Ascii("\"") == [DOUBLE_QUOTE]
  {
    var s := Ascii("\"/\".");
    assert AsciiByte('"') == DOUBLE_QUOTE && AsciiByte('/') == SLASH && AsciiByte('.') == DOT;
    assert v[0] == s[0] && v[1] == s[1] && v[2] == s[2] && v[3] == s[3];
  }

  lemma QuoteThen(v: Text, x: Text)
    requires NoStart(v, x) && forall rest: Text :: !At([DOUBLE_QUOTE] + x + rest, 0, v)
    ensures NoStart(v, [DOUBLE_QUOTE] + x)
  {
    hide At;
    forall t: nat, rest: Text | t < |[DOUBLE_QUOTE] + x| ensures !At([DOUBLE_QUOTE] + x + rest, t, v) {
      if t > 0 {
        assert ([DOUBLE_QUOTE] + x + rest)[1..] == x + rest;
        AtShifts([DOUBLE_QUOTE] + x + rest, 1, t - 1, v);
      }
    }
  }

  lemma QuotedBaseDiffers(v: Text, base: Text, x: Text, rest: Text)
    requires |v| > 3 && v[2] == DOUBLE_QUOTE && InQuotes(base)
    requires base == [] ==> Clashes(v, 1, x)
    requires |base| == 1 ==> Clashes(v, 2, x)
    ensures !At([DOUBLE_QUOTE] + (base + x) + rest, 0, v)
  {
    hide At;
    var text := [DOUBLE_QUOTE] + (base + x) + rest;
    assert |base| > 1 ==> base[1] in base;
    if At(text, 0, v) {
      if |base| > 1 {
        AtHasByte(text, 0, v, 2);
        assert text[2] == base[1];
      } else {
        var i: nat :| i < |x| && 1 + |base| + i < |v| && x[i] != v[1 + |base| + i];
        AtHasByte(text, 0, v, 1 + |base| + i);
        assert text[1 + |base| + i] == x[i];
      }
    }
  }

  lemma QuoteSplits(a: string, rest: Text)
    ensures Ascii(a + "\"") + rest == Ascii(a) + (Ascii("\"") + rest)
  {
    AsciiConcat(a, "\"");
    hide Ascii;
    Reassociate(Ascii(a), Ascii("\""), rest);
  }

  lemma QuoteHas(v: Text, literal: string)
    requires Ascii("\"/\".") <= v && NoWord("\"/", literal)
    ensures NoStart(v, Ascii(literal))
  {
    WordNoStart(v, "\"/\".", "\"/", literal);
  }

  /** Where a match of the first identifier rule would go on with a quoted slash, the replacement goes on otherwise. */
  lemma ConcatDiffers(e: Text, id: Text, end: string)
    requires IsExpression(Identifier, e) && IsExpression(Identifier, id)
    ensures Clashes(IdentifierMatch(0, e), 1, LastPart(id, end))
  {
    hide *;
    IdentifierBytes(e);
    IdentifierBytes(id);
    NoDotInName(e);
    NoDotInName(id);
    TrimAndReplace(end);
    ConcatMatch(e);
    LastPartIs(id, end);
    ClashBehindNames(Ascii("\""), Ascii("/\".concat("), e, Ascii(TemplateSuffix(0)), id,
                     Ascii(".replace(/^\\/+/,\"\")))" + end));
  }

  lemma NoDotInName(id: Text)
    requires forall b <- id :: IdentifierContinue(b)
    ensures DOT !in id
  {
    DotIsNoIdentifierByte();
    hide IdentifierContinue;
  }

  lemma ConcatMatch(e: Text)
    ensures |Ascii("\"")| == 1
    ensures IdentifierMatch(0, e) == Ascii("\"") + (Ascii("/\".concat(") + (e + Ascii(TemplateSuffix(0))))
  {
    AsciiConcat("\"", "/\".concat(");
    assert TemplatePrefix(0) == "\"" + "/\".concat(";
    hide Ascii, TemplatePrefix, TemplateSuffix;
    Reassociate(Ascii("\"") + Ascii("/\".concat("), e, Ascii(TemplateSuffix(0)));
    Reassociate(Ascii("\""), Ascii("/\".concat("), e + Ascii(TemplateSuffix(0)));
  }

  lemma TrimAndReplace(end: string)
    ensures var x, y := Ascii(TemplateSuffix(0)), Ascii(".replace(/^\\/+/,\"\")))" + end);
            |x| > 1 && |y| > 1 && x[0] == DOT == y[0] && x[1] != y[1]
  {
    assert AsciiByte('r') != AsciiByte('t') && AsciiByte('.') == DOT;
    assert TemplateSuffix(0)[..2] == ".t" && |TemplateSuffix(0)| > 1;
    hide AsciiByte;
  }

  /** Two names, each followed by a dot and another byte: the texts differ. */
  lemma ClashBehindNames(q: Text, a: Text, d: Text, x: Text, e: Text, y: Text)
    requires |q| == 1 && DOT !in d && DOT !in e
    requires |x| > 1 && |y| > 1 && x[0] == DOT == y[0] && x[1] != y[1]
    ensures Clashes(q + (a + (d + x)), 1, a + (e + y))
  {
    hide Clashes;
    var v, w := q + (a + (d + x)), a + (e + y);
    if |d| < |e| {
      assert v[1 + |a| + |d|] == x[0] && w[|a| + |d|] == e[|d|];
      ClashesAt(v, 1, w, |a| + |d|);
    } else if |d| > |e| {
      assert v[1 + |a| + |e|] == d[|e|] && w[|a| + |e|] == y[0];
      ClashesAt(v, 1, w, |a| + |e|);
    } else {
      assert v[2 + |a| + |d|] == x[1] && w[1 + |a| + |d|] == y[1];
      ClashesAt(v, 1, w, 1 + |a| + |d|);
    }
  }

  lemma ClashesAt(v: Text, k: nat, x: Text, i: nat)
    requires i < |x| && k + i < |v| && x[i] != v[k + i]
    ensures Clashes(v, k, x)
  {
  }

  lemma QuotedLast(v: Text, base: Text, id: Text, end: string)
    requires Ascii("\"/\".") <= v && InQuotes(base) && (end == "" || end == "}") && NoStart(v, id)
    requires Clashes(v, 1, LastPart(id, end))
    ensures NoStart(v, Ascii("\"") + (base + LastPart(id, end)))
  {
    LastPartIs(id, end);
    CloseNoStart(v, "\"/\".", "\"/", end);
    QuoteHas(v, "/\".concat(");
    QuotedSlash(v);
    assert Ascii("/\".concat(")[0] == AsciiByte('/') == SLASH;
    var close := ".replace(/^\\/+/,\"\")))" + end;
    hide Ascii, NoStart, Clashes, InQuotes, LastPart;
    NoStartConcat(v, id, Ascii(close));
    NoStartConcat(v, Ascii("/\".concat("), id + Ascii(close));
    ClashesAt(v, 2, LastPart(id, end), 0);
    QuoteNoStart(v, base, LastPart(id, end));
  }

  lemma QuotedSecond(v: Text, base: Text, id: Text, end: string)
    requires Ascii("\"/\".") <= v && InQuotes(base) && NoStart(v, id)
    requires NoStart(v, Ascii("\"") + (base + LastPart(id, end)))
    ensures NoStart(v, Ascii("\"") + (base + SecondPart(id, base, end)))
  {
    SecondPartIs(id, base, end);
    QuoteHas(v, "/\")?");
    QuoteHas(v, ":");
    assert ":" + "\"" == ":\"";
    QuoteSplits(":", base + LastPart(id, end));
    QuotedSlash(v);
    assert Ascii("/\")?")[0] == AsciiByte('/') == SLASH && Ascii("/\")?")[2] == AsciiByte(')') != DOT;
    hide Ascii, NoStart, Clashes, InQuotes, LastPart, SecondPart;
    var second, rest := SecondPart(id, base, end), Ascii("\"") + (base + LastPart(id, end));
    NoStartConcat(v, Ascii(":"), rest);
    NoStartConcat(v, id, Ascii(":") + rest);
    NoStartConcat(v, Ascii("/\")?"), id + (Ascii(":") + rest));
    ClashesAt(v, 1, second, 2);
    ClashesAt(v, 2, second, 0);
    QuoteNoStart(v, base, second);
  }

  lemma QuotedTest(v: Text, base: Text, id: Text, end: string)
    requires Ascii("\"/\".") <= v && InQuotes(base) && NoStart(v, id)
    requires NoStart(v, Ascii("\"") + (base + SecondPart(id, base, end)))
    ensures NoStart(v, Ascii("\"") + (base + Test(id, base, end)))
  {
    TestIs(id, base, end);
    QuoteHas(v, "\"||");
    QuoteHas(v, ".startsWith(");
    assert ".startsWith(" + "\"" == ".startsWith(\"";
    QuoteSplits(".startsWith(", base + SecondPart(id, base, end));
    QuotedSlash(v);
    assert Ascii("\"||")[0] == AsciiByte('"') == DOUBLE_QUOTE && Ascii("\"||")[1] == AsciiByte('|') != DOT;
    hide Ascii, NoStart, Clashes, InQuotes, SecondPart, Test;
    var test, rest := Test(id, base, end), Ascii("\"") + (base + SecondPart(id, base, end));
    NoStartConcat(v, Ascii(".startsWith("), rest);
    NoStartConcat(v, id, Ascii(".startsWith(") + rest);
    NoStartConcat(v, Ascii("\"||"), id + (Ascii(".startsWith(") + rest));
    ClashesAt(v, 1, test, 0);
    ClashesAt(v, 2, test, 1);
    QuoteNoStart(v, base, test);
  }

  lemma QuotedComparisonNoStart(d: Text, k: nat, id: Text, base: Text)
    requires k < 3 && InQuotes(base) && IsExpression(Identifier, d) && IsExpression(Identifier, id)
    ensures NoStart(IdentifierMatch(0, d), Comparison(k, id, base))
  {
    hide *;
    var v, end := IdentifierMatch(0, d), Closing(k);
    QuotedMatch(d);
    QuotedSlash(v);
    IdentifierBytes(id);
    QuoteByte(id);
    ClosingIs(k);
    NoStartWithout(v, id);
    ConcatDiffers(d, id, end);
    QuotedLast(v, base, id, end);
    QuotedSecond(v, base, id, end);
    QuotedTest(v, base, id, end);
    ComparisonSplits(k, id, base);
    EqualsNoStart(v);
    NoStartConcat(v, Ascii("==="), Ascii("\"") + (base + Test(id, base, end)));
  }

  lemma ComparisonSplits(k: nat, id: Text, base: Text)
    ensures Comparison(k, id, base) == Ascii("===") + (Ascii("\"") + (base + Test(id, base, Closing(k))))
  {
    assert "===" + "\"" == "===\"";
    QuoteSplits("===", base + Test(id, base, Closing(k)));
    hide Ascii, Test;
  }

  lemma EqualsNoStart(v: Text)
    requires Ascii("\"/\".") <= v
    ensures NoStart(v, Ascii("==="))
  {
    QuoteHas(v, "===");
  }

  /** A match of the first rule does not begin in what an identifier rule writes. */
  lemma QuotedComparedNoStart(d: Text, k: nat, id: Text, base: Text)
    requires k < 3 && InQuotes(base) && IsExpression(Identifier, d) && IsExpression(Identifier, id)
    ensures NoStart(IdentifierMatch(0, d), id + Compared(k, id, base))
  {
    QuotedComparisonNoStart(d, k, id, base);
    IdentifierBytes(id);
    QuotedMatch(d);
    ComparedIs(id, base);
    var v, replace := IdentifierMatch(0, d), ".replace(/\\/\\/+/,\"/\"),";
    hide NoStart, Test, InQuotes, IsExpression, IdentifierMatch, FollowsName;
    QuotedSlash(v);
    assert DOUBLE_QUOTE !in id by { QuoteByte(id); }
    NoStartWithout(v, id);
    if k == 2 {
      var comparison := Comparison(k, id, base);
      QuotedReplaceNoStart(v);
      QuoteHas(v, "=");
      hide Ascii, Comparison;
      NoStartConcat(v, id, comparison);
      NoStartConcat(v, Ascii(replace), id + comparison);
      NoStartConcat(v, id, Ascii(replace) + (id + comparison));
      NoStartConcat(v, Ascii("="), id + (Ascii(replace) + (id + comparison)));
      NoStartConcat(v, id, Compared(k, id, base));
    } else {
      NoStartConcat(v, id, Compared(k, id, base));
    }
  }

  lemma QuoteByte(id: Text)
    requires AsciiByte('"') !in id
    ensures DOUBLE_QUOTE !in id
  {
  }

  lemma QuotedMatch(d: Text)
    ensures Ascii("\"/\".") <= IdentifierMatch(0, d)
  {
    BeginsWith("\"/\".concat(", "\"/\".", d + Ascii(TemplateSuffix(0)));
    Reassociate(Ascii(TemplatePrefix(0)), d, Ascii(TemplateSuffix(0)));
  }

  lemma QuotedReplaceNoStart(v: Text)
    requires Ascii("\"/\".") <= v
    ensures NoStart(v, Ascii(".replace(/\\/\\/+/,\"/\"),"))
  {
    hide *;
    var front, close := ".replace(/\\/\\/+/,", "\"),";
    ReplaceParts(front, close);
    ReplaceHas(v, front, close);
    SlashInQuotes();
    QuoteNoStart(v, [SLASH], Ascii(close));
    NoStartConcat(v, Ascii(front), Ascii("\"") + ([SLASH] + Ascii(close)));
  }

  lemma SlashInQuotes()
    ensures InQuotes([SLASH])
  {
  }

  lemma ReplaceParts(front: string, close: string)
    requires front == ".replace(/\\/\\/+/," && close == "\"),"
    ensures Ascii(".replace(/\\/\\/+/,\"/\"),") == Ascii(front) + (Ascii("\"") + ([SLASH] + Ascii(close)))
  {
    assert ".replace(/\\/\\/+/,\"/\")," == front + "\"" + "/" + close;
    AsciiConcat(front + "\"" + "/", close);
    AsciiConcat(front + "\"", "/");
    QuoteSplits(front, Ascii("/") + Ascii(close));
    assert AsciiByte('/') == SLASH;
    assert Ascii("/") == [SLASH];
    hide Ascii, AsciiByte;
    Reassociate(Ascii(front + "\""), Ascii("/"), Ascii(close));
  }

  lemma ReplaceHas(v: Text, front: string, close: string)
    requires front == ".replace(/\\/\\/+/," && close == "\")," && Ascii("\"/\".") <= v
    ensures NoStart(v, Ascii(front)) && NoStart(v, Ascii(close)) && Clashes(v, 2, Ascii(close))
  {
    QuoteHas(v, front);
    QuoteHas(v, close);
    QuotedSlash(v);
    assert Ascii(close)[1] == AsciiByte(')') != DOT;
    ClashesAt(v, 2, Ascii(close), 1);
    hide NoStart, Ascii, Clashes;
  }

  // The last rule and itself.

  lemma AssignmentMatch(d: Text)
    requires IsExpression(Identifier, d)
    ensures var v, j := IdentifierMatch(2, d), 13 + |d|;
            && Ascii(")),") <= v && j < |v| && v[j] == BACKSLASH && v[j - 1] == SLASH
            && forall k :: 0 < k < j ==> v[k] != DOUBLE_QUOTE && (v[k] == SLASH ==> k == j - 1)
  {
    ReplaceBytes();
    BracketBytes();
    IdentifierBytes(d);
    QuoteByte(d);
    IdentifierMatchIs(2, d);
    var p, x := Ascii(TemplatePrefix(2)), Ascii(TemplateSuffix(2));
    hide IsExpression, AsciiByte, IdentifierContinue, TemplatePrefix, TemplateSuffix, IdentifierMatch, Ascii;
    var v := IdentifierMatch(2, d);
    forall k | 0 < k < 13 + |d| ensures v[k] != DOUBLE_QUOTE && (v[k] == SLASH ==> k == 12 + |d|) {
      if k < 3 {
        assert v[k] == p[k];
      } else if k < 3 + |d| {
        assert v[k] == d[k - 3];
      } else {
        assert v[k] == x[k - 3 - |d|];
      }
    }
    assert v[13 + |d|] == x[10] && v[12 + |d|] == x[9];
    assert v == p + (d + x);
  }

  lemma BracketBytes()
    ensures var p := Ascii(TemplatePrefix(2));
            p == Ascii(")),") && |p| == 3 && forall k :: 0 <= k < 3 ==> p[k] != DOUBLE_QUOTE && p[k] != SLASH
  {
    AsciiLacks(")),", '"');
    AsciiLacks(")),", '/');
    assert AsciiByte('"') == DOUBLE_QUOTE && AsciiByte('/') == SLASH;
    hide AsciiByte;
  }

  lemma ReplaceBytes()
    ensures var x := Ascii(TemplateSuffix(2));
            && |x| > 10 && x[10] == BACKSLASH && x[9] == SLASH
            && forall k :: 0 <= k < 10 ==> x[k] != DOUBLE_QUOTE && (x[k] == SLASH ==> k == 9)
  {
    var s := TemplateSuffix(2);
    var a := ".replace(";
    assert s[..9] == a && |s| > 10 && s[10] == '\\' && s[9] == '/';
    AsciiLacks(a, '"');
    AsciiLacks(a, '/');
    assert AsciiByte('"') == DOUBLE_QUOTE && AsciiByte('/') == SLASH && AsciiByte('\\') == BACKSLASH;
    hide AsciiByte, TemplateSuffix;
    assert forall k :: 0 <= k < 9 ==> Ascii(s)[k] == Ascii(a)[k];
  }

  lemma AssignmentByte(d: Text, k: nat)
    requires IsExpression(Identifier, d) && 0 < k <= 13 + |d|
    ensures var v := IdentifierMatch(2, d);
            k < |v| && v[k] != DOUBLE_QUOTE && (v[k] == SLASH ==> k + 1 < |v| && v[k + 1] != DOUBLE_QUOTE)
  {
    AssignmentMatch(d);
    hide IsExpression, IdentifierMatch, Ascii;
  }

  lemma AssignmentClashes(d: Text, x: Text, k: nat)
    requires IsExpression(Identifier, d) && FollowsBase(x) && 0 < k <= 13 + |d|
    ensures Clashes(IdentifierMatch(2, d), k, x)
  {
    hide *;
    AssignmentByte(d, k);
    QuoteOrSlashQuote(x);
    if x[0] == DOUBLE_QUOTE || IdentifierMatch(2, d)[k] != SLASH {
      ClashesAt(IdentifierMatch(2, d), k, x, 0);
    } else {
      ClashesAt(IdentifierMatch(2, d), k, x, 1);
    }
  }

  lemma AssignmentBeforeBase(d: Text, base: Text, x: Text)
    requires IsExpression(Identifier, d) && InQuotes(base) && FollowsBase(x) && NoStart(IdentifierMatch(2, d), x)
    ensures NoStart(IdentifierMatch(2, d), base + x)
  {
    AssignmentMatch(d);
    hide IsExpression, FollowsBase, NoStart, IdentifierMatch, Clashes;
    var v, j := IdentifierMatch(2, d), 13 + |d|;
    forall k: nat | 0 < k <= j ensures Clashes(v, k, x) {
      AssignmentClashes(d, x, k);
    }
    NoStartInHole(v, base, x, j);
  }

  lemma QuoteOrSlashQuote(x: Text)
    requires FollowsBase(x)
    ensures |x| > 1 && (x[0] == DOUBLE_QUOTE || (x[0] == SLASH && x[1] == DOUBLE_QUOTE))
  {
    assert AsciiByte('"') == DOUBLE_QUOTE && AsciiByte('/') == SLASH;
    assert Ascii("\"||")[0] == DOUBLE_QUOTE;
    assert Ascii("/\")")[0] == SLASH && Ascii("/\")")[1] == DOUBLE_QUOTE;
    assert Ascii("/\".")[0] == SLASH && Ascii("/\".")[1] == DOUBLE_QUOTE;
    hide AsciiByte;
  }

  lemma AssignmentIsForeign(d: Text, id: Text, base: Text)
    requires IsExpression(Identifier, d) && IsExpression(Identifier, id) && InQuotes(base)
    ensures IsForeign(IdentifierMatch(2, d), id, base, "}")
  {
    AssignmentMatch(d);
    IdentifierBytes(id);
    var v, w := IdentifierMatch(2, d), ")),";
    assert ArePlain(w);
    AssignmentFits();
    assert v[0] == Ascii(w)[0] == AsciiByte(')');
    hide Ascii, NoStart, NoWord, ArePlain, FollowsName, FollowsBase, AsciiByte, IsExpression, InQuotes, IdentifierMatch;
    WordNoStart(v, w, w, "=");
    WordNoStart(v, w, w, "===\"");
    WordNoStart(v, w, w, "\"||");
    WordNoStart(v, w, w, ".startsWith(\"");
    WordNoStart(v, w, w, "/\")?");
    WordNoStart(v, w, w, ":\"");
    WordNoStart(v, w, w, "/\".concat(");
    WordNoStart(v, w, w, ".replace(/^\\/+/,\"\")))" + "}");
    WordNoStart(v, w, w, ".replace(/\\/\\/+/,\"/\"),");
    NoStartWithout(v, id);
    forall x | FollowsName(x) && NoStart(v, x) ensures NoStart(v, id + x) {
      NoStartConcat(v, id, x);
    }
    forall x | FollowsBase(x) && NoStart(v, x) ensures NoStart(v, base + x) {
      AssignmentBeforeBase(d, base, x);
    }
  }

  lemma AssignmentFits()
    ensures var w := ")),";
            && NoWord(w, "=") && NoWord(w, "===\"") && NoWord(w, "\"||") && NoWord(w, ".startsWith(\"")
            && NoWord(w, "/\")?") && NoWord(w, ":\"") && NoWord(w, "/\".concat(")
            && NoWord(w, ".replace(/^\\/+/,\"\")))" + "}") && NoWord(w, ".replace(/\\/\\/+/,\"/\"),")
  {
  }

  /** A match of an identifier rule does not touch what that rule or a later one writes. */
  lemma IdentifierIsShy(i: nat, d: Text, k: nat, id: Text, base: Text)
    requires i <= k < 3 && InQuotes(base) && IsExpression(Identifier, d) && IsExpression(Identifier, id)
    ensures Shy(IdentifierMatch(i, d), Ascii(Common(k) + "(") + (id + Compared(k, id, base)), |Ascii(Common(k))|)
  {
    hide *;
    if i == 1 {
      ReturnIsShyOfTest(d, k, id, base);
    } else {
      BaseLacks(base);
      IdentifierMatchBytes(i, d);
      IdentifierBytes(id);
      if i == 0 {
        QuotedComparedNoStart(d, k, id, base);
      } else {
        AssignmentIsForeign(d, id, base);
        LastEnd();
        ComparedNoStart(IdentifierMatch(2, d), 2, id, base);
      }
      ForeignIsShy(IdentifierMatch(i, d), k, id, base);
    }
  }

  lemma LastEnd()
    ensures Closing(2) == "}"
  {
  }
}
