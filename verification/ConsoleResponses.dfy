/** What the thirteen stages of a console response write, for every base path and every name. */
module ConsoleResponses {
  import opened Bytes
  import opened LiteralSpec
  import opened ExpressionSpec
  import opened Stages
  import opened Policy
  import opened Profiles
  import opened BasePath
  import opened StageEffects
  import opened CodeTests
  import opened ExactRules
  import opened MemberRules
  import opened IdentifierRules
  import opened ConsoleRewrites
  import opened ConsoleSettling
  import opened ConsoleIdempotence
  import opened Names
  import opened Occurrences
  import PrependIdempotence
  import StaticPrefixes
  import MigMeta

  lemma StageIs(base: Text, name: Text, codec: MigMeta.Codec, k: nat)
    requires IsBasePath(base) && IsText(name) && k < 11
    ensures IsText(base) && InQuotes(base)
    ensures |ProfileSpecs(ConsoleV3Profile, base, name, codec)| == 13
    ensures ProfileSpecs(ConsoleV3Profile, base, name, codec)[2 + k] == ConsoleStage(k, base)
  {
    hide *;
    BasePathWithoutCode(base);
    ConsoleSpecs(base, name, codec);
    CodeStageIs(base, k);
  }

  lemma CodeStageIs(base: Text, k: nat)
    requires k < 11
    ensures |CodeStages(base)| == 11 && CodeStages(base)[k] == ConsoleStage(k, base)
  {
    hide ConsoleStage;
  }

  // Literals.

  /** A URL of the extension, or of any, gets the base path unless it has it. */
  lemma StaticUrlIsPrefixed(base: Text, name: Text, codec: MigMeta.Codec, before: Text, after: Text)
    requires IsBasePath(base) && IsText(name)
    ensures IsText(base) && |ProfileSpecs(ConsoleV3Profile, base, name, codec)| == 13
    ensures var specs := ProfileSpecs(ConsoleV3Profile, base, name, codec);
            var own := Ascii("/extensions-static/") + name + Ascii("/dist/v3dist/");
            var any := Ascii("/extensions-static/");
            && (OnlyBehind(own, before + own + after, |before|, |own|) ==>
                  specs[0].Run(before + own + after) ==
                  before + (if EndsWith(before, base) then own else base + own) + after)
            && (OnlyBehind(any, before + any + after, |before|, |any|) ==>
                  specs[1].Run(before + any + after) ==
                  before + (if EndsWith(before, base) then any else base + any) + after)
  {
    StageIs(base, name, codec, 0);
    FirstTwo(base, name, codec);
    hide *;
    var own := Ascii("/extensions-static/") + name + Ascii("/dist/v3dist/");
    var any := Ascii("/extensions-static/");
    if OnlyBehind(own, before + own + after, |before|, |own|) {
      OnePrefixed(base, own, before, after);
    }
    if OnlyBehind(any, before + any + after, |before|, |any|) {
      OnePrefixed(base, any, before, after);
    }
  }

  lemma FirstTwo(base: Text, name: Text, codec: MigMeta.Codec)
    requires IsText(base) && IsText(name)
    ensures |ProfileSpecs(ConsoleV3Profile, base, name, codec)| >= 2
    ensures var specs := ProfileSpecs(ConsoleV3Profile, base, name, codec);
            var own := Ascii("/extensions-static/") + name + Ascii("/dist/v3dist/");
            var any := Ascii("/extensions-static/");
            && own != [] && any != []
            && specs[0] == LiteralStage(Prepending(base, own)) && specs[1] == LiteralStage(Prepending(base, any))
            && (forall t :: specs[0].Run(t) == Rewritten(Prepending(base, own), t))
            && (forall t :: specs[1].Run(t) == Rewritten(Prepending(base, any), t))
  {
    ConsoleSpecs(base, name, codec);
    hide ProfileSpecs, IsText, Ascii, CodeStages, Substitute;
  }

  /** The base path between the parts of a literal. */
  function WithBase(parts: seq<string>, base: Text): Text
    requires 1 <= |parts| <= 4
  {
    Ascii(parts[0])
    + (if |parts| > 1 then base + Ascii(parts[1]) else [])
    + (if |parts| > 2 then base + Ascii(parts[2]) else [])
    + (if |parts| > 3 then base + Ascii(parts[3]) else [])
  }

  lemma FilledWithBase(parts: seq<string>, base: Text)
    requires |parts| == 1 || |parts| == 4
    ensures Filled(parts, base) == WithBase(parts, base)
  {
    FilledSteps(parts, base);
    if |parts| == 4 {
      FilledSteps(parts[1..], base);
      FilledSteps(parts[2..], base);
      FilledSteps(parts[3..], base);
    }
    hide Ascii, Filled;
    if |parts| == 4 {
      assert parts[1..][1..] == parts[2..] && parts[2..][1..] == parts[3..];
      var a, b, c, d := Ascii(parts[0]), Ascii(parts[1]), Ascii(parts[2]), Ascii(parts[3]);
      Reassociate(base, c, base + d);
      Reassociate(base, b, base + c + (base + d));
      Reassociate(a, base + b, base + c + (base + d));
      Reassociate(a + (base + b), base + c, base + d);
    }
  }

  lemma ExactShape(i: nat)
    requires i < 4
    ensures |ExactParts(i)| == (if i == 0 then 4 else 1) && ExactSource(i) != ""
  {
  }

  lemma ExactRuns(i: nat, base: Text)
    requires i < 4
    ensures Ascii(ExactSource(i)) != []
    ensures forall t :: ConsoleStage(i, base).Run(t) ==
                        Rewritten(Replacing(Ascii(ExactSource(i)), Filled(ExactParts(i), base)), t)
  {
    ExactShape(i);
    hide ExactSource, ExactParts, Filled, Substitute;
  }

  /** A sentence of the console's code is replaced, and the base path goes between the parts of its replacement. */
  lemma SentenceIsReplaced(i: nat, base: Text, name: Text, codec: MigMeta.Codec, before: Text, after: Text)
    requires i < 4 && IsBasePath(base) && IsText(name) && |CONSOLE_EXACTS| == 4
    requires var source := Ascii(CONSOLE_EXACTS[i].0); NoneBefore(source, before + source + after, |before|)
    ensures IsText(base) && |ProfileSpecs(ConsoleV3Profile, base, name, codec)| == 13
    ensures 1 <= |CONSOLE_EXACTS[i].1| <= 4
    ensures var stage := ProfileSpecs(ConsoleV3Profile, base, name, codec)[2 + i];
            stage.Run(before + Ascii(CONSOLE_EXACTS[i].0) + after) ==
            before + WithBase(CONSOLE_EXACTS[i].1, base) + stage.Run(after)
  {
    SourceOf(i);
    hide *;
    StageIs(base, name, codec, i);
    ExactShape(i);
    ExactRuns(i, base);
    FilledWithBase(ExactParts(i), base);
    FirstReplaced(Ascii(ExactSource(i)), Filled(ExactParts(i), base), before, after);
  }

  lemma SourceOf(i: nat)
    requires i < 4
    ensures |CONSOLE_EXACTS| == 4 && CONSOLE_EXACTS[i].0 == ExactSource(i) && CONSOLE_EXACTS[i].1 == ExactParts(i)
  {
  }

  // What the four sentences are, and what becomes of them.

  lemma Grouped(a: string, b: string, c: string)
    ensures a + b + c == a + (b + c)
  {
  }

  /** What puts a path below the root, whatever quotes it is in. */
  function Rooting(q: string): string {
    q + "/" + q + ".concat("
  }

  lemma Rootings()
    ensures Rooting("\"") == "\"/\".concat(" && Rooting("\\\"") == "\\\"/\\\".concat("
    ensures Rooting("\"") + "path);" == "\"/\".concat(path);" && Rooting("\\\"") + "path);" == "\\\"/\\\".concat(path);"
  {
  }

  /** A path is put below the root only when it is not there already. */
  lemma RootedSentences(q: string)
    requires IsCodeQuote(q)
    ensures |CONSOLE_EXACTS| == 4
    ensures var i := if q == "\"" then 1 else 2;
            && CONSOLE_EXACTS[i].0 == "return " + Rooting(q) + "path.trimLeft('/'));"
            && CONSOLE_EXACTS[i].1 == ["return " + "path.startsWith('/') ? path : " + Rooting(q) + "path);"]
  {
    Rootings();
    Grouped("return ", Rooting(q), "path.trimLeft('/'));");
    Grouped("return " + "path.startsWith('/') ? path : ", Rooting(q), "path);");
    Grouped("return ", "path.startsWith('/') ? path : ", Rooting(q) + "path);");
    hide Rooting;
  }

  /** Whether something is a URL. */
  function UrlLike(x: string): string {
    x + "." + "toLowerCase()" + ".startsWith('http://') || " + (x + ".toLowerCase()") + ".startsWith('https://')"
  }

  lemma Unnested(start: string, a: string, b: string, c: string, d: string)
    ensures start + (a + b + c + d) == start + a + b + c + d
  {
    Grouped(start, a + b + c, d);
    Grouped(start, a + b, c);
    Grouped(start, a, b);
  }

  /** A test for a URL, in front of what comes behind it. */
  lemma TestBehind(start: string, a: string, x: string, call: string, last: string, rest: string)
    requires start == a + (x + ".") && call == x + ".toLowerCase()" && last == ".startsWith('https://')" + rest
    ensures start + ("toLowerCase()" + ".startsWith('http://') || " + call + last) == a + UrlLike(x) + rest
  {
    var l, h, t := "toLowerCase()", ".startsWith('http://') || ", ".startsWith('https://')";
    Unnested(start, l, h, call, last);
    Grouped(start + l + h + call, t, rest);
    Grouped(a, x + "." + l + h + call, t);
    Grouped(a, x + "." + l + h, call);
    Grouped(a, x + "." + l, h);
    Grouped(a, x + ".", l);
  }

  /** Only what begins with `http://` or `https://` is taken for a URL, in whatever case. */
  lemma SchemeSentence()
    ensures |CONSOLE_EXACTS| == 4
    ensures CONSOLE_EXACTS[3].0 == "if (path.startsWith('http')) {"
    ensures CONSOLE_EXACTS[3].1 == ["if (" + UrlLike("path") + ") {"]
  {
    assert "if (path." == "if (" + ("path" + ".") && ".startsWith('https://')) {" == ".startsWith('https://')" + ") {";
    assert "path.toLowerCase()" == "path" + ".toLowerCase()";
    assert "if (path.startsWith('http')) {" == "if (path." + "startsWith('http')) {";
    hide UrlLike;
    TestBehind("if (path.", "if (", "path", "path.toLowerCase()", ".startsWith('https://')) {", ") {");
  }

  /** The URL of the request with repeated slashes taken out. */
  function Collapsed(): string {
    "requestURL." + "replace(/\\\\/\\\\/+/, '/')"
  }

  /** A URL stays as it is; a path is put below the base path unless it is there, with its slashes collapsed. */
  lemma RequestSentence()
    ensures |CONSOLE_EXACTS| == 4
    ensures CONSOLE_EXACTS[0].0 == "return " + Collapsed() + ";"
    ensures CONSOLE_EXACTS[0].1 == [
      "return " + UrlLike("requestURL") + " || " + "requestURL.startsWith('//')" + " ? requestURL : ("
        + Collapsed() + " === '",
      "' || " + Collapsed() + ".startsWith('",
      "/') ? " + Collapsed() + " : '",
      "/'.concat(" + Collapsed() + ".replace(/^\\\\/+/, '')));"]
  {
    RequestTexts();
    assert Collapsed() == "requestURL." + ONE_SLASH;
    hide UrlLike, ONE_SLASH, Collapsed;
    var u, r, q, one := "requestURL.", "requestURL.startsWith('//')", " ? requestURL : (", ONE_SLASH;
    Grouped("return ", u, one + ";");
    Grouped(u, one, ";");
    Grouped("return ", u + one, ";");
    TestBehind("return requestURL.", "return ", "requestURL", "requestURL.toLowerCase()",
               ".startsWith('https://') || ", " || ");
    var test := "toLowerCase()" + ".startsWith('http://') || " + "requestURL.toLowerCase()"
      + ".startsWith('https://') || ";
    Unnested("return requestURL.", test, r, q + u, one);
    Grouped("return requestURL.", test + r + (q + u) + one, " === '");
    Grouped("return " + UrlLike("requestURL") + " || " + r, q, u);
    Grouped("return " + UrlLike("requestURL") + " || " + r + q, u, one);
    Grouped("' || ", u, one);
    Grouped("/') ? ", u, one);
    Grouped("/'.concat(", u, one);
  }

  lemma RequestTexts()
    ensures "return requestURL." == "return " + ("requestURL" + ".") == "return " + "requestURL."
    ensures "requestURL.toLowerCase()" == "requestURL" + ".toLowerCase()"
    ensures ".startsWith('https://') || " == ".startsWith('https://')" + " || "
    ensures " ? requestURL : (requestURL." == " ? requestURL : (" + "requestURL."
    ensures "' || requestURL." == "' || " + "requestURL." && "/') ? requestURL." == "/') ? " + "requestURL."
    ensures "/'.concat(requestURL." == "/'.concat(" + "requestURL."
  {
  }

  // Names in code.

  /** A quote of the code, or of code that is itself in quotes. */
  predicate IsCodeQuote(q: string) {
    q == "\"" || q == "\\\""
  }

  predicate IsGap(gap: string) {
    gap == "" || gap == " "
  }

  /** The stage for a router's base name as it is written with this gap and this quote. */
  function BasenameStage(gap: string, q: string): nat {
    6 + (if gap == " " then 0 else 1) + (if q == "\"" then 0 else 2)
  }

  /** A router's base name up to the quote that opens it; what joins the two strings; and the end of the call. */
  function OpenBasename(gap: string, q: string): string {
    "basename:" + gap + q
  }

  function JoinBasename(q: string): string {
    q + ".concat("
  }

  function EndBasename(gap: string, q: string): string {
    "," + gap + q + "/consolev3" + q + ")"
  }

  lemma Openings()
    ensures OpenBasename(" ", "\"") == "basename: \"" && OpenBasename("", "\"") == "basename:\""
    ensures OpenBasename(" ", "\\\"") == "basename: \\\"" && OpenBasename("", "\\\"") == "basename:\\\""
    ensures JoinBasename("\"") == "\".concat(" && JoinBasename("\\\"") == "\\\".concat("
    ensures "/" + JoinBasename("\"") == "/\".concat(" && "/" + JoinBasename("\\\"") == "/\\\".concat("
  {
  }

  lemma Endings()
    ensures EndBasename(" ", "\"") == ", \"/consolev3\")" && EndBasename("", "\"") == ",\"/consolev3\")"
    ensures EndBasename(" ", "\\\"") == ", \\\"/consolev3\\\")" && EndBasename("", "\\\"") == ",\\\"/consolev3\\\")"
  {
  }

  /** The rules for base names are the four ways of writing one. */
  lemma BasenameTexts(gap: string, q: string)
    requires IsCodeQuote(q) && IsGap(gap)
    ensures var i := BasenameStage(gap, q) - 6;
            && 0 <= i < 4 && |MemberParts(i)| == 2
            && MemberPrefix(i) == OpenBasename(gap, q) + JoinBasename(q) && MemberSuffix(i) == EndBasename(gap, q)
            && MemberParts(i)[0] == OpenBasename(gap, q) && MemberParts(i)[1] == "/" + JoinBasename(q)
  {
    Openings();
    Endings();
    hide OpenBasename, JoinBasename, EndBasename;
  }

  lemma MemberStageIs(i: nat, base: Text)
    requires i < 4
    ensures var p := ConsoleMember(i, base).pattern;
            && ConsoleStage(4 + i, base) == ExpressionStage(p) && p.Valid() && p.syntax == MemberExpression
            && p.prefix == Ascii(MemberPrefix(i)) && p.suffix == Ascii(MemberSuffix(i))
            && !Extends(p.syntax, p.suffix[0])
            && forall t :: ConsoleStage(4 + i, base).Run(t) == ExpressionSpec.Rewrite(p, t, 0, false)
  {
    MemberShape(i);
    IdentifierBytesOf(',');
    AsciiByteIsDot(',');
    hide Filled, MemberParts, MemberPrefix, MemberSuffix, ConsoleExact, ConsoleIdentifier, ExpressionSpec.Rewrite;
    var p := ConsoleMember(i, base).pattern;
    assert MemberPrefix(i) != "";
    assert p.suffix[0] == AsciiByte(',');
    assert ConsoleStage(4 + i, base) == ExpressionStage(p);
  }

  lemma AsciiByteIsDot(c: char)
    requires c < 128 as char
    ensures AsciiByte(c) == DOT <==> c == '.'
  {
    AsciiByteIsCode(c);
    AsciiByteIsCode('.');
  }

  lemma MemberStageWrites(i: nat, base: Text, before: Text, e: Text, after: Text)
    requires i < 4 && IsExpression(MemberExpression, e) && !EndsInIdentifier(before)
    requires NoneBefore(Ascii(MemberPrefix(i)), before + MemberMatch(i, e) + after, |before|)
    ensures |MemberParts(i)| == 2
    ensures ConsoleStage(4 + i, base).Run(before + MemberMatch(i, e) + after) ==
            before + (Ascii(MemberParts(i)[0]) + (base + (Ascii(MemberParts(i)[1]) + (e + Ascii(MemberSuffix(i))))))
            + ConsoleStage(4 + i, base).Run(after)
  {
    hide *;
    MemberStageIs(i, base);
    MemberShape(i);
    MemberRenders(i, base, e);
    MemberIsWritten(i, base, e);
    MemberTailIs(i, base, e);
    var p := ConsoleMember(i, base).pattern;
    BetweenIsInstance(p, e);
    MemberEnds(i, base, e);
    FirstExpression(p, before, e, after);
  }

  /** What is written ends in a bracket, so that what follows is looked at afresh. */
  lemma MemberEnds(i: nat, base: Text, e: Text)
    requires i < 4
    ensures ConsoleStage(4 + i, base).ExpressionStage?
    ensures !EndsInIdentifier(Render(ConsoleStage(4 + i, base).pattern, e))
  {
    MemberStageIs(i, base);
    MemberShape(i);
    MemberRenders(i, base, e);
    NoIdentifierChars();
    hide Filled, MemberParts, MemberPrefix, MemberSuffix, ConsoleMember, Render, IdentifierContinue, AsciiByte;
    var suffix := Ascii(MemberSuffix(i));
    assert suffix[|suffix| - 1] == AsciiByte(')');
  }

  /** A router's base name, joined from nothing and any names, is joined from the base path instead. */
  lemma BasenameIsRewritten(gap: string, q: string, names: seq<string>, base: Text, name: Text, codec: MigMeta.Codec,
                            before: Text, after: Text)
    requires IsCodeQuote(q) && IsGap(gap) && AreNames(MemberExpression, names) && IsBasePath(base) && IsText(name)
    requires !EndsInIdentifier(before)
    requires var prefix := Ascii("basename:" + gap + q + q + ".concat(");
             var call := prefix + Ascii(Dotted(names)) + Ascii("," + gap + q + "/consolev3" + q + ")");
             NoneBefore(prefix, before + call + after, |before|)
    ensures IsText(base) && |ProfileSpecs(ConsoleV3Profile, base, name, codec)| == 13
    ensures var call := Ascii("basename:" + gap + q + q + ".concat(") + Ascii(Dotted(names))
                        + Ascii("," + gap + q + "/consolev3" + q + ")");
            var stage := ProfileSpecs(ConsoleV3Profile, base, name, codec)[BasenameStage(gap, q)];
            stage.Run(before + call + after) ==
            before + (Ascii("basename:" + gap + q) + base + Ascii("/" + q + ".concat(") + Ascii(Dotted(names))
                      + Ascii("," + gap + q + "/consolev3" + q + ")")) + stage.Run(after)
  {
    CallTexts(gap, q);
    DottedIsExpression(MemberExpression, names);
    BasenameTexts(gap, q);
    hide *;
    var i, e := BasenameStage(gap, q) - 6, Ascii(Dotted(names));
    StageIs(base, name, codec, 4 + i);
    MemberMatchIs(i, e);
    MemberStageWrites(i, base, before, e, after);
    var a, b, c := Ascii(OpenBasename(gap, q)), Ascii("/" + JoinBasename(q)), Ascii(EndBasename(gap, q));
    FiveParts(a, base, b, e, c);
  }

  lemma CallTexts(gap: string, q: string)
    ensures "basename:" + gap + q == OpenBasename(gap, q) && q + ".concat(" == JoinBasename(q)
    ensures "," + gap + q + "/consolev3" + q + ")" == EndBasename(gap, q)
    ensures "basename:" + gap + q + q + ".concat(" == OpenBasename(gap, q) + JoinBasename(q)
    ensures "/" + q + ".concat(" == "/" + JoinBasename(q)
  {
  }

  lemma FiveParts(a: Text, b: Text, c: Text, d: Text, e: Text)
    ensures a + (b + (c + (d + e))) == a + b + c + d + e
  {
    Reassociate(a, b, c + (d + e));
    Reassociate(a + b, c, d + e);
    Reassociate(a + b + c, d, e);
  }

  // What takes a slash off a path, as the console's code has it once it is minified.

  /** The name, unless it is below the base path, is put there. */
  function Guarded(id: Text, base: Text, end: string): Text {
    id + (Ascii("===\"") + (base + (Ascii("\"||")
    + (id + (Ascii(".startsWith(\"") + (base + (Ascii("/\")?")
    + (id + (Ascii(":\"") + (base + (Ascii("/\".concat(")
    + (id + Ascii(".replace(/^\\/+/,\"\")))" + end)))))))))))))
  }

  lemma GuardedIsCompared(i: nat, id: Text, base: Text)
    requires i < 3
    ensures i < 2 ==> id + Compared(i, id, base) == Guarded(id, base, "")
    ensures i == 2 ==> Compared(i, id, base) ==
                       Ascii("=") + (id + (Ascii(".replace(/\\/\\/+/,\"/\"),") + Guarded(id, base, "}")))
  {
    hide Ascii;
  }

  lemma TemplateTexts()
    ensures TemplatePrefix(0) == "\"/\".concat(" && TemplateSuffix(0) == ".trimLeft(\"/\"))"
    ensures TemplatePrefix(1) == "return\"/\".concat(" && TemplateSuffix(1) == ".trimLeft(\"/\"))"
    ensures TemplatePrefix(2) == ")),"
    ensures TemplateSuffix(2) == ".replace(/\\/\\/+/,\"/\")}"
    ensures Common(0) + "(" == "(" && Common(1) + "(" == "return(" && Common(2) + "(" == ")),("
  {
  }

  lemma IdentifierStageIs(i: nat, base: Text)
    requires i < 3
    ensures var p := ConsoleIdentifier(i, base).pattern;
            && ConsoleStage(8 + i, base) == ConsoleIdentifier(i, base) == ExpressionStage(p) && p.Valid()
               && p.syntax == Identifier
            && p.prefix == Ascii(TemplatePrefix(i)) && p.suffix == Ascii(TemplateSuffix(i))
            && !Extends(p.syntax, p.suffix[0])
            && forall t :: ConsoleStage(8 + i, base).Run(t) == ExpressionSpec.Rewrite(p, t, 0, false)
  {
    TemplateTexts();
    IdentifierBytesOf('.');
    hide Filled, CONSOLE_TEMPLATES, TemplatePrefix, TemplateSuffix, ConsoleExact, ConsoleMember,
      ExpressionSpec.Rewrite;
    var p := ConsoleIdentifier(i, base).pattern;
    assert TemplatePrefix(i) != "" && TemplateSuffix(i)[0] == '.';
    assert p.suffix[0] == AsciiByte('.');
    assert ConsoleStage(8 + i, base) == ExpressionStage(p);
  }

  lemma IdentifierStageWrites(i: nat, base: Text, before: Text, id: Text, after: Text)
    requires i < 3 && IsExpression(Identifier, id) && !EndsInIdentifier(before) && InQuotes(base)
    requires NoneBefore(Ascii(TemplatePrefix(i)), before + IdentifierMatch(i, id) + after, |before|)
    ensures ConsoleStage(8 + i, base).Run(before + IdentifierMatch(i, id) + after) ==
            before + (Ascii(Common(i) + "(") + (id + Compared(i, id, base))) + ConsoleStage(8 + i, base).Run(after)
  {
    hide *;
    IdentifierStageIs(i, base);
    IdentifierMatchIs(i, id);
    IdentifierIsWritten(i, base, id);
    var p := ConsoleStage(8 + i, base).pattern;
    BetweenIsInstance(p, id);
    GuardEnds(i, id, base);
    FirstExpression(p, before, id, after);
  }

  lemma GuardEnds(i: nat, id: Text, base: Text)
    requires i < 3
    ensures !EndsInIdentifier(Ascii(Common(i) + "(") + (id + Compared(i, id, base)))
  {
    ComparedEnds(i, id, base);
    NoIdentifierChars();
    hide Compared, Common, IdentifierContinue, AsciiByte, Ascii;
    LastOfConcat(Ascii(Common(i) + "("), id, Compared(i, id, base));
  }

  lemma IdentifierMatchIs(i: nat, id: Text)
    requires i < 3
    ensures IdentifierMatch(i, id) == Ascii(TemplatePrefix(i)) + id + Ascii(TemplateSuffix(i))
  {
  }

  lemma NameIsExpression(id: string)
    requires IsName(id)
    ensures IsExpression(Identifier, Ascii(id))
  {
    NameIsIdentifier(id);
    IdentifierIsExpression(Identifier, Ascii(id));
  }

  /** A path that would be put below the root is put below the base path, unless it is there. */
  lemma RootedPathIsGuarded(start: string, id: string, base: Text, name: Text, codec: MigMeta.Codec,
                            before: Text, after: Text)
    requires (start == "" || start == "return") && IsName(id) && IsBasePath(base) && IsText(name)
    requires !EndsInIdentifier(before)
    requires var prefix := Ascii(start + "\"/\".concat(");
             var call := prefix + Ascii(id) + Ascii(".trimLeft(\"/\"))");
             NoneBefore(prefix, before + call + after, |before|)
    ensures IsText(base) && |ProfileSpecs(ConsoleV3Profile, base, name, codec)| == 13
    ensures var call := Ascii(start + "\"/\".concat(") + Ascii(id) + Ascii(".trimLeft(\"/\"))");
            var stage := ProfileSpecs(ConsoleV3Profile, base, name, codec)[if start == "" then 10 else 11];
            stage.Run(before + call + after) ==
            before + (Ascii(start + "(") + Guarded(Ascii(id), base, "")) + stage.Run(after)
  {
    TemplateTexts();
    StartTexts();
    hide *;
    var i := if start == "" then 0 else 1;
    StageIs(base, name, codec, 8 + i);
    NameIsExpression(id);
    IdentifierMatchIs(i, Ascii(id));
    IdentifierStageWrites(i, base, before, Ascii(id), after);
    GuardedIsCompared(i, Ascii(id), base);
  }

  lemma StartTexts()
    ensures "" + "\"/\".concat(" == "\"/\".concat(" && "return" + "\"/\".concat(" == "return\"/\".concat("
    ensures "" + "(" == "(" && "return" + "(" == "return("
  {
  }

  /** The same, where repeated slashes are first taken out of the path. */
  lemma CollapsedPathIsGuarded(id: string, base: Text, name: Text, codec: MigMeta.Codec, before: Text, after: Text)
    requires IsName(id) && IsBasePath(base) && IsText(name) && !EndsInIdentifier(before)
    requires var prefix := Ascii(")),");
             var call := prefix + Ascii(id) + Ascii(".replace(/\\/\\/+/,\"/\")}");
             NoneBefore(prefix, before + call + after, |before|)
    ensures IsText(base) && |ProfileSpecs(ConsoleV3Profile, base, name, codec)| == 13
    ensures var call := Ascii(")),") + Ascii(id) + Ascii(".replace(/\\/\\/+/,\"/\")}");
            var stage := ProfileSpecs(ConsoleV3Profile, base, name, codec)[12];
            stage.Run(before + call + after) ==
            before + (Ascii(")),(") + (Ascii(id) + (Ascii("=") + (Ascii(id) + (Ascii(".replace(/\\/\\/+/,\"/\"),")
                      + Guarded(Ascii(id), base, "}")))))) + stage.Run(after)
  {
    TemplateTexts();
    hide *;
    StageIs(base, name, codec, 10);
    NameIsExpression(id);
    IdentifierMatchIs(2, Ascii(id));
    IdentifierStageWrites(2, base, before, Ascii(id), after);
    GuardedIsCompared(2, Ascii(id), base);
  }

  /** What an expression has to stand behind. */
  function PrefixOf(k: nat): string
    requires 4 <= k < 11
  {
    if k < 8 then CONSOLE_MEMBERS[k - 4].0 else CONSOLE_TEMPLATES[k - 8].0
  }

  lemma PrefixesAre(k: nat)
    requires 4 <= k < 11
    ensures PrefixOf(k) == if k < 8 then MemberPrefix(k - 4) else TemplatePrefix(k - 8)
  {
  }

  lemma ExpressionStageIs(k: nat, base: Text)
    requires 4 <= k < 11
    ensures ConsoleStage(k, base).ExpressionStage?
    ensures var p := ConsoleStage(k, base).pattern;
            p.Valid() && p.prefix == Ascii(PrefixOf(k))
              && forall t :: ConsoleStage(k, base).Run(t) == ExpressionSpec.Rewrite(p, t, 0, false)
  {
    hide *;
    PrefixesAre(k);
    if k < 8 {
      MemberStageIs(k - 4, base);
    } else {
      IdentifierStageIs(k - 8, base);
    }
  }

  /** Behind a letter, a digit, `_` or `$` none of them is touched: it belongs to a longer name. */
  lemma LongerNameIsKept(k: nat, c: char, base: Text, name: Text, codec: MigMeta.Codec, before: Text, rest: Text)
    requires 4 <= k < 11 && IsNamePart(c) && IsBasePath(base) && IsText(name)
    requires before != [] && before[|before| - 1] == AsciiByte(c)
    requires OnlyBehind(Ascii(PrefixOf(k)), before + rest, |before|, 1)
    ensures IsText(base) && |ProfileSpecs(ConsoleV3Profile, base, name, codec)| == 13
    ensures ProfileSpecs(ConsoleV3Profile, base, name, codec)[2 + k].Run(before + rest) == before + rest
  {
    EndsInNamePart(c, before);
    hide *;
    StageIs(base, name, codec, k);
    ExpressionStageIs(k, base);
    NothingBehindName(ConsoleStage(k, base).pattern, before, rest);
  }

  lemma EndsInNamePart(c: char, before: Text)
    requires IsNamePart(c) && before != [] && before[|before| - 1] == AsciiByte(c)
    ensures EndsInIdentifier(before)
  {
    NamePartIsAscii(c);
    IdentifierBytesOf(c);
  }
}
