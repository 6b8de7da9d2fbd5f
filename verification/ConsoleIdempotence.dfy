/** Console responses: which base paths make a second pass change what the first has written. */
module ConsoleIdempotence {
  import opened Bytes
  import opened LiteralSpec
  import opened Stages
  import opened Responses
  import opened Policy
  import opened Profiles
  import opened BasePath
  import opened PrependIdempotence
  import opened StaticPrefixes
  import opened StageEffects
  import opened CodeTests
  import opened ExactRules
  import opened MemberRules
  import opened IdentifierRules
  import opened ConsoleRewrites
  import opened ConsoleSettling
  import opened ProfileIdempotence
  import ExactIdempotence
  import MigMeta

  // Texts without a space, a double quote or a backslash, in which the stages behind the first two have nothing to do.

  predicate IsCodeByte(b: Byte) {
    b == 0x20 || b == DOUBLE_QUOTE || b == BACKSLASH
  }

  predicate WithoutCode(text: Text) {
    forall b <- text :: !IsCodeByte(b)
  }

  predicate IsCodeChar(c: char) {
    c == ' ' || c == '"' || c == '\\'
  }

  lemma CodeCharHasCodeByte(c: char)
    requires c < 128 as char
    ensures IsCodeByte(AsciiByte(c)) <==> IsCodeChar(c)
  {
    AsciiByteIsCode(c);
    AsciiByteIsCode(' ');
    AsciiByteIsCode('"');
    AsciiByteIsCode('\\');
    assert AsciiByte(' ') == 0x20 && AsciiByte('"') == DOUBLE_QUOTE && AsciiByte('\\') == BACKSLASH;
  }

  lemma HoldsCode(s: string, k: nat)
    requires k < |s| && IsCodeChar(s[k])
    ensures !WithoutCode(Ascii(s))
  {
    hide AsciiByte, IsCodeByte;
    CodeCharHasCodeByte(s[k]);
    assert Ascii(s)[k] in Ascii(s);
  }

  lemma HoldsNoCode(s: string)
    requires forall k :: 0 <= k < |s| ==> s[k] < 128 as char && !IsCodeChar(s[k])
    ensures WithoutCode(Ascii(s))
  {
    hide AsciiByte, IsCodeByte, IsCodeChar;
    forall b | b in Ascii(s) ensures !IsCodeByte(b) {
      var k :| 0 <= k < |s| && Ascii(s)[k] == b;
      CodeCharHasCodeByte(s[k]);
    }
  }

  lemma WithoutCodeConcat(a: Text, b: Text)
    ensures WithoutCode(a + b) <==> WithoutCode(a) && WithoutCode(b)
  {
    hide IsCodeByte;
    assert forall x :: x in a + b <==> x in a || x in b;
  }

  lemma SourceHoldsCode(i: nat)
    requires i < 4
    ensures !WithoutCode(Ascii(ExactSource(i)))
  {
    Openings(i);
    var n := if i < 3 then 6 else 2;
    assert Opening(i)[n] == ' ';
    HoldsCode(ExactSource(i), n);
    hide WithoutCode, Ascii, ExactSource;
  }

  lemma MemberHoldsCode(i: nat, e: Text)
    requires i < 4
    ensures !WithoutCode(MemberMatch(i, e))
  {
    Basenames(i);
    assert MemberPrefix(i)[9] == Basename(i)[9];
    HoldsCode(MemberPrefix(i), 9);
    hide WithoutCode, Ascii, MemberPrefix, MemberSuffix, MemberMatch;
    MemberMatchIs(i, e);
    WithoutCodeConcat(Ascii(MemberPrefix(i)), e);
    WithoutCodeConcat(Ascii(MemberPrefix(i)) + e, Ascii(MemberSuffix(i)));
  }

  lemma IdentifierHoldsCode(i: nat, id: Text)
    requires i < 3
    ensures !WithoutCode(IdentifierMatch(i, id))
  {
    var suffix := TemplateSuffix(i);
    assert |suffix| > 3 && suffix[|suffix| - 3] == '"';
    HoldsCode(suffix, |suffix| - 3);
    hide WithoutCode, Ascii, TemplatePrefix, TemplateSuffix, IdentifierMatch;
    IdentifierMatchIs(i, id);
    WithoutCodeConcat(Ascii(TemplatePrefix(i)) + id, Ascii(suffix));
  }

  lemma InstanceHoldsCode(k: nat, base: Text, v: Text)
    requires k < 11 && IsInstance(ConsoleStage(k, base), v)
    ensures !WithoutCode(v)
  {
    hide *;
    StageIs(k, base);
    if k < 4 {
      ExactInstance(k, base, v);
      SourceHoldsCode(k);
    } else if k < 8 {
      var e := MemberInstance(k - 4, base, v);
      MemberHoldsCode(k - 4, e);
    } else {
      var id := IdentifierInstance(k - 8, base, v);
      IdentifierHoldsCode(k - 8, id);
    }
  }

  lemma QuietWithoutCode(k: nat, base: Text, text: Text)
    requires k < 11 && WithoutCode(text)
    ensures Quiet(ConsoleStage(k, base), text)
  {
    hide IsInstance, IsCodeByte, ConsoleStage, At;
    forall v: Text, o: nat | IsInstance(ConsoleStage(k, base), v) ensures !At(text, o, v) {
      InstanceHoldsCode(k, base, v);
      var b :| b in v && IsCodeByte(b);
      ExactIdempotence.LacksByte(text, o, v, b);
    }
  }

  // The stages of the profile.

  lemma ConsoleRulesOf(base: Text, name: Text, codec: MigMeta.Codec)
    ensures var rules := ConsoleRules(base, ConsoleSource(name));
            && ProfileRules(ConsoleV3Profile, base, name, codec) == rules
            && rules.others == ConsoleMembers(base) + ConsoleTemplates(base)
            && |rules.literals| >= 2 && rules.literals[2..] == ConsoleExacts(base)
            && rules.literals[0] == PrefixRule(ConsoleSource(name), base + ConsoleSource(name))
            && rules.literals[1] == PrefixRule(STATIC_ROOT, base + STATIC_ROOT)
  {
    hide ConsoleExacts, ConsoleMembers, ConsoleTemplates, STATIC_ROOT, ConsoleSource;
  }

  lemma ConsoleSpecsExist(base: Text, name: Text, codec: MigMeta.Codec)
    requires IsText(base) && IsText(name)
    ensures var rules := ProfileRules(ConsoleV3Profile, base, name, codec);
            SpecsOf(rules.literals).Ok? && SpecsOf(rules.others).Ok?
  {
    hide ProfileRules, IsText, SpecsOf;
    ProfilesBuildUtf8Chains(ConsoleV3Profile, base, name, codec);
  }

  lemma PrefixSpec(p: Text, s: Text)
    requires s != []
    ensures SpecOf(PrefixRule(s, p + s)) == Ok(LiteralStage(Prepending(p, s)))
  {
  }

  lemma ExactSpecs(base: Text)
    ensures |ConsoleExacts(base)| == 4
    ensures forall i :: 0 <= i < 4 && SpecOf(ConsoleExacts(base)[i]).Ok? ==>
              SpecOf(ConsoleExacts(base)[i]) == Ok(ConsoleExact(i, base))
  {
    hide Ascii, Filled;
  }

  lemma MemberSpecs(base: Text)
    ensures |ConsoleMembers(base)| == 4
    ensures forall i :: 0 <= i < 4 && SpecOf(ConsoleMembers(base)[i]).Ok? ==>
              SpecOf(ConsoleMembers(base)[i]) == Ok(ConsoleMember(i, base))
  {
    hide Ascii, Filled;
  }

  lemma IdentifierSpecs(base: Text)
    ensures |ConsoleTemplates(base)| == 3
    ensures forall i :: 0 <= i < 3 && SpecOf(ConsoleTemplates(base)[i]).Ok? ==>
              SpecOf(ConsoleTemplates(base)[i]) == Ok(ConsoleIdentifier(i, base))
  {
    hide Ascii, Filled;
  }

  /** The stages of the console: the two that insert the base path before a literal, and those that need code. */
  lemma ConsoleSpecs(base: Text, name: Text, codec: MigMeta.Codec)
    requires IsText(base) && IsText(name)
    ensures STATIC_ROOT != [] && ConsoleSource(name) != []
    ensures ProfileSpecs(ConsoleV3Profile, base, name, codec) ==
            [LiteralStage(Prepending(base, ConsoleSource(name))), LiteralStage(Prepending(base, STATIC_ROOT))]
            + CodeStages(base)
  {
    SourceLength(name);
    PrefixSpec(base, ConsoleSource(name));
    PrefixSpec(base, STATIC_ROOT);
    hide *;
    var rules := ConsoleRules(base, ConsoleSource(name));
    ConsoleRulesOf(base, name, codec);
    ConsoleSpecsExist(base, name, codec);
    var literals, others := SpecsOf(rules.literals).value, SpecsOf(rules.others).value;
    ProfileSpecsAre(ConsoleV3Profile, base, name, codec, literals, others);
    CodeStagesAre(base, rules.literals, rules.others, literals, others);
    TwoAndTheRest(literals, others);
    assert literals[0] == LiteralStage(Prepending(base, ConsoleSource(name)));
    assert literals[1] == LiteralStage(Prepending(base, STATIC_ROOT));
  }

  lemma TwoAndTheRest(a: seq<Spec>, b: seq<Spec>)
    requires |a| >= 2
    ensures a + b == [a[0], a[1]] + (a[2..] + b)
  {
    assert a == [a[0], a[1]] + a[2..];
  }

  lemma CodeStagesAre(base: Text, first: seq<StageRule>, rest: seq<StageRule>, literals: seq<Spec>, others: seq<Spec>)
    requires |first| >= 2 && first[2..] == ConsoleExacts(base) && rest == ConsoleMembers(base) + ConsoleTemplates(base)
    requires |literals| == |first| && |others| == |rest|
    requires forall i :: 0 <= i < |first| ==> SpecOf(first[i]) == Ok(literals[i])
    requires forall i :: 0 <= i < |rest| ==> SpecOf(rest[i]) == Ok(others[i])
    ensures literals[2..] + others == CodeStages(base)
  {
    ExactSpecs(base);
    MemberSpecs(base);
    IdentifierSpecs(base);
    hide ConsoleExacts, ConsoleMembers, ConsoleTemplates, ConsoleExact, ConsoleMember, ConsoleIdentifier, SpecOf;
    var stages := literals[2..] + others;
    forall k | 0 <= k < 11 ensures stages[k] == ConsoleStage(k, base) {
      if k < 4 {
        assert first[2..][k] == first[k + 2];
      } else if k < 8 {
        assert rest[k - 4] == ConsoleMembers(base)[k - 4];
      } else {
        assert rest[k - 4] == ConsoleTemplates(base)[k - 8];
      }
    }
  }

  // On bodies without code the response is what the first two stages make of it.

  lemma {:induction false} OutputWithoutCode(rule: Rule, text: Text, i: nat)
    requires rule.Valid() && i <= |text| && WithoutCode(text)
    requires WithoutCode(rule.source) && WithoutCode(rule.mode.replacement)
    ensures WithoutCode(Substitute(rule, text, i))
    decreases |text| - i
  {
    hide Substitute, At, IsCodeByte;
    SubstituteUnfolds(rule, text, i);
    RenderedIsOneOfTwo(rule, text, i);
    if i < |text| {
      OutputWithoutCode(rule, text, if At(text, i, rule.source) then i + |rule.source| else i + 1);
    }
  }

  lemma PrefixedWithoutCode(base: Text, name: Text, text: Text)
    requires WithoutCode(base) && WithoutCode(name) && WithoutCode(text)
    ensures WithoutCode(ConsoleSource(name)) && WithoutCode(STATIC_ROOT) && WithoutCode(STATIC_BASE)
    ensures WithoutCode(Prefixed(base, name, text))
  {
    HoldsNoCode("/extensions-static/");
    HoldsNoCode("/extensions-static");
    HoldsNoCode("/dist/v3dist/");
    WithoutCodeConcat(STATIC_ROOT, name);
    WithoutCodeConcat(STATIC_ROOT + name, DIST);
    WithoutCodeConcat(base, ConsoleSource(name));
    WithoutCodeConcat(base, STATIC_ROOT);
    Rounds(base, name, text);
    hide Ascii, STATIC_ROOT, ConsoleSource, WithoutCode, Substitute;
    OutputWithoutCode(Prepending(base, ConsoleSource(name)), text, 0);
    OutputWithoutCode(Prepending(base, STATIC_ROOT), SourcePrefixed(base, name, text), 0);
  }

  lemma ComposeTwo(a: Spec, b: Spec, later: seq<Spec>, body: Text)
    requires a.Valid() && b.Valid() && AllValid(later)
    ensures AllValid([a, b] + later)
    ensures Compose([a, b] + later, body) == Compose(later, b.Run(a.Run(body)))
  {
    hide Spec.Valid, Spec.Run, Compose;
    assert [a, b] == [a] + [b];
    ComposeConcat([a, b], later, body);
    ComposeConcat([a], [b], body);
    ComposeOne(a, body);
    ComposeOne(b, a.Run(body));
  }

  /** The response: the first two stages, then the others. */
  lemma ConsoleResponse(base: Text, name: Text, codec: MigMeta.Codec, body: Text)
    requires IsText(base) && IsText(name) && InQuotes(base)
    ensures AllValid(CodeStages(base))
    ensures Compose(ProfileSpecs(ConsoleV3Profile, base, name, codec), body) ==
            Compose(CodeStages(base), Prefixed(base, name, body))
  {
    hide *;
    CodeStagesAreValid(base);
    ConsoleSpecs(base, name, codec);
    var a, b := LiteralStage(Prepending(base, ConsoleSource(name))), LiteralStage(Prepending(base, STATIC_ROOT));
    Rounds(base, name, body);
    Rounds(base, name, SourcePrefixed(base, name, body));
    PrefixStage(base, ConsoleSource(name), body);
    PrefixStage(base, STATIC_ROOT, SourcePrefixed(base, name, body));
    ComposeTwo(a, b, CodeStages(base), body);
  }

  lemma ConsoleRun(base: Text, name: Text, codec: MigMeta.Codec, body: Text)
    requires IsText(base) && IsText(name) && InQuotes(base)
    requires WithoutCode(base) && WithoutCode(name) && WithoutCode(body)
    ensures Compose(ProfileSpecs(ConsoleV3Profile, base, name, codec), body) == Prefixed(base, name, body)
    ensures WithoutCode(Prefixed(base, name, body))
  {
    ConsoleResponse(base, name, codec, body);
    PrefixedWithoutCode(base, name, body);
    AllStages(base);
    hide ProfileSpecs, Compose, Prefixed, WithoutCode, ConsoleStage, InQuotes, IsText, Quiet;
    forall k | 0 <= k < 11 ensures Quiet(ConsoleStage(k, base), Prefixed(base, name, body)) {
      QuietWithoutCode(k, base, Prefixed(base, name, body));
    }
    QuietStagesKeep(base, 11, Prefixed(base, name, body));
  }

  lemma PrefixStage(p: Text, s: Text, text: Text)
    requires s != []
    ensures var stage := LiteralStage(Prepending(p, s));
            stage.Valid() && stage.Run(text) == Rewritten(Prepending(p, s), text)
  {
    hide Substitute;
  }

  /** What the router hands on as the name of an extension. */
  ghost predicate IsExtensionName(name: Text) {
    exists value :: IsSafeExtensionName(value) && name == Ascii(value)
  }

  lemma ExtensionNameBytes(name: Text)
    requires IsExtensionName(name)
    ensures IsText(name) && SLASH !in name && WithoutCode(name) && IsPlainName(name)
  {
    hide AsciiByte, IsText, WithoutCode, Lacks;
    var value :| IsSafeExtensionName(value) && name == Ascii(value);
    AsciiIsText(value);
    assert forall c :: IsAlphanumeric(c) || c in {'-', '_', '.'} ==>
        c < 128 as char && !IsCodeChar(c) && c != '/' && c != ':' && c != '(';
    HoldsNoCode(value);
    forall c | c == ' ' || c == ':' || c == '(' || c == '/' ensures AsciiByte(c) !in name {
      NameLacks(value, c);
      AsciiLacks(value, c);
    }
    assert AsciiByte('/') == SLASH by { AsciiByteIsSlash('/'); }
  }

  lemma NameLacks(value: string, c: char)
    requires IsSafeExtensionName(value) && (c == ' ' || c == ':' || c == '(' || c == '/')
    ensures Lacks(value, c)
  {
  }

  lemma BasePathWithoutCode(base: Text)
    requires IsBasePath(base)
    ensures IsText(base) && (base == [] || base[0] == SLASH) && WithoutCode(base) && InQuotes(base)
  {
    hide IsBasePath;
    BasePathIsText(base);
    BasePathIsPlain(base);
  }

  lemma ConsoleTwice(base: Text, name: Text, codec: MigMeta.Codec, body: Text)
    requires IsBasePath(base) && IsExtensionName(name) && WithoutCode(body)
    ensures ChangesTwice(ConsoleV3Profile, base, name, codec, body) <==>
            Prefixed(base, name, Prefixed(base, name, body)) != Prefixed(base, name, body)
  {
    BasePathWithoutCode(base);
    ExtensionNameBytes(name);
    hide IsBasePath, IsExtensionName, IsText, ProfileSpecs, Compose, Prefixed, WithoutCode;
    ConsoleRun(base, name, codec, body);
    ConsoleRun(base, name, codec, Prefixed(base, name, body));
  }

  lemma ConsoleChangesTwice(base: Text, name: Text, codec: MigMeta.Codec) returns (body: Text)
    requires IsBasePath(base) && IsExtensionName(name) && !KeepsStaticRootApart(base, name)
    ensures WithoutCode(body) && ChangesTwice(ConsoleV3Profile, base, name, codec, body)
  {
    BasePathWithoutCode(base);
    ExtensionNameBytes(name);
    hide *;
    body := ChangedTwice(base, name);
    ChangedTextWithoutCode(base, name, body);
    ConsoleTwice(base, name, codec, body);
  }

  lemma ChangedTextWithoutCode(base: Text, name: Text, text: Text)
    requires WithoutCode(base) && WithoutCode(name)
    requires text == STATIC_ROOT
             || exists k :: 18 <= k < |ConsoleSource(name)| && text == Begun(name, k) + ConsoleSource(name)
    ensures WithoutCode(text)
  {
    PrefixedWithoutCode(base, name, []);
    hide STATIC_ROOT, STATIC_BASE, ConsoleSource, IsCodeByte, Prefixed;
    if text != STATIC_ROOT {
      var k :| 18 <= k < |ConsoleSource(name)| && text == Begun(name, k) + ConsoleSource(name);
      assert forall b :: b in text ==> b in STATIC_BASE || b in ConsoleSource(name);
    }
  }

  /** Whatever the body was, a second pass finds nothing to do. */
  lemma ConsoleSettles(base: Text, name: Text, codec: MigMeta.Codec, body: Text)
    requires IsBasePath(base) && IsExtensionName(name) && KeepsStaticRootApart(base, name)
    requires IsText(base) && IsText(name)
    ensures var specs := ProfileSpecs(ConsoleV3Profile, base, name, codec);
            Compose(specs, Compose(specs, body)) == Compose(specs, body)
  {
    BasePathWithoutCode(base);
    ExtensionNameBytes(name);
    hide *;
    ConsoleResponse(base, name, codec, body);
    OnePassSettles(base, name, body);
    ConsoleResponse(base, name, codec, Compose(CodeStages(base), Prefixed(base, name, body)));
  }

  /** Console responses are rewritten idempotently exactly for base paths that keep the static root apart. */
  lemma ConsoleIsIdempotentExactlyWhen(base: Text, name: Text, codec: MigMeta.Codec)
    requires IsBasePath(base) && IsExtensionName(name)
    ensures IsIdempotent(ConsoleV3Profile, base, name, codec) <==> KeepsStaticRootApart(base, name)
  {
    BasePathWithoutCode(base);
    ExtensionNameBytes(name);
    hide IsBasePath, IsExtensionName, IsText, ProfileSpecs, Compose, KeepsStaticRootApart, WithoutCode, InQuotes,
      IsPlainName;
    if KeepsStaticRootApart(base, name) {
      var specs := ProfileSpecs(ConsoleV3Profile, base, name, codec);
      forall body ensures Compose(specs, Compose(specs, body)) == Compose(specs, body) {
        ConsoleSettles(base, name, codec, body);
      }
    } else {
      var body := ConsoleChangesTwice(base, name, codec);
      NotIdempotent(ConsoleV3Profile, base, name, codec, body);
    }
  }

  // Two base paths that the configuration takes, and for which console responses change again.

  /** The static root itself, as base path and as body. */
  lemma BasePathIsStaticRoot(name: Text, codec: MigMeta.Codec)
    requires IsExtensionName(name)
    ensures forall urlKeeps: Text -> bool :: urlKeeps(STATIC_BASE) ==>
              NormalizeBasePath(STATIC_BASE, urlKeeps) == Accepted(STATIC_BASE)
    ensures IsBasePath(STATIC_BASE) && ChangesTwice(ConsoleV3Profile, STATIC_BASE, name, codec, STATIC_ROOT)
  {
    hide *;
    RootInItself();
    ExtensionNameBytes(name);
    SimplePathIsBasePath(STATIC_BASE);
    BasePathWithoutCode(STATIC_BASE);
    PrefixedWithoutCode(STATIC_BASE, name, STATIC_BASE);
    RootTwice(STATIC_BASE, name);
    ConsoleTwice(STATIC_BASE, name, codec, STATIC_ROOT);
  }

  lemma RootInItself()
    ensures !OnlyAtEnd(STATIC_BASE, STATIC_ROOT) && IsSimplePath(STATIC_BASE)
  {
    StaticBaseIsSimple();
    RootBytes();
    hide STATIC_ROOT, STATIC_BASE, IsSimplePath;
    var text := STATIC_BASE + STATIC_ROOT;
    assert STATIC_ROOT[..1] == [SLASH];
    assert text == STATIC_ROOT + STATIC_ROOT[1..];
    assert text[0..19] == STATIC_ROOT;
    assert At(text, 0, STATIC_ROOT);
  }

  lemma StaticBaseIsSimple()
    ensures IsSimplePath(STATIC_BASE)
  {
    SimplePathOfLiteral("/extensions-static");
  }

  lemma SampleShape()
    ensures var base, name := Ascii("/x/dist/v3dist"), Ascii("x");
            && |name| == 1 && |base| == 14 && base[0] == SLASH && base + [SLASH] == [SLASH] + name + DIST
  {
    SlashIsOneByte();
    SampleLength();
    AsciiConcat("/x/dist/v3dist", "/");
    AsciiConcat("/", "x");
    AsciiConcat("/" + "x", "/dist/v3dist/");
    SampleIsSplit();
    DistIs();
    hide *;
  }

  lemma SlashIsOneByte()
    ensures Ascii("/") == [SLASH]
  {
    assert AsciiByte('/') == SLASH;
  }

  lemma SampleLength()
    ensures |Ascii("/x/dist/v3dist")| == 14 && Ascii("/x/dist/v3dist")[0] == SLASH && |Ascii("x")| == 1
  {
    assert AsciiByte('/') == SLASH;
  }

  lemma SampleIsSplit()
    ensures "/x/dist/v3dist" + "/" == "/" + "x" + "/dist/v3dist/"
  {
  }

  lemma DistIs()
    ensures DIST == Ascii("/dist/v3dist/")
  {
  }

  lemma SampleIsOrdinary(base: Text, name: Text)
    requires |name| == 1 && SLASH !in name && |base| == 14 && base[0] == SLASH
    ensures Ordinary(base, name) && !Occurs(STATIC_ROOT, base + [SLASH])
  {
    RootBytes();
    RootNotInside(base);
    hide At, OnlyAtEnd, STATIC_ROOT, STATIC_NAME, STATIC_BASE;
    forall o: nat ensures !At(base + [SLASH], o, STATIC_ROOT) {
      AtIsWithin(base + [SLASH], o, STATIC_ROOT);
    }
  }

  lemma SampleIsCompleted(base: Text, name: Text)
    requires Ordinary(base, name) && base + [SLASH] == [SLASH] + name + DIST
    ensures var s := ConsoleSource(name);
            && 18 < |s| && !EndsWith(s[..18], base) && s[18..] <= base + s && !(s[18..] <= s)
            && STATIC_BASE + STATIC_BASE + s == Begun(name, 18) + s
  {
    hide *;
    var s := ConsoleSource(name);
    OrdinaryName(base, name);
    DifferentNames(base, name);
    SourceLength(name);
    SourceFromBase(name);
    FirstInnerSlash(name);
    InnerEndDoesNotBegin(name, 18);
    EndsWithItself(STATIC_BASE);
    ShadowedIsNotPrefixed(base, STATIC_BASE);
    SlashAndRest(name);
    Reassociate(base, [SLASH], s[1..]);
  }

  lemma SourceFromBase(name: Text)
    ensures |STATIC_BASE| == 18 && |ConsoleSource(name)| > 18 && Begun(name, 18) == STATIC_BASE + STATIC_BASE
    ensures ConsoleSource(name)[..18] == STATIC_BASE && ConsoleSource(name)[18..] == [SLASH] + name + DIST
  {
    RootBytes();
    SourceShape(name);
    SourceLength(name);
    hide STATIC_ROOT, STATIC_BASE, DIST, ConsoleSource;
    assert ConsoleSource(name) == STATIC_BASE + ([SLASH] + name + DIST);
  }

  lemma FirstInnerSlash(name: Text)
    ensures IsInnerSlash(|name|, 18)
  {
  }

  /** A base path without the static root that completes a source, and a body in which it does. */
  lemma BasePathCompletesSource(codec: MigMeta.Codec)
    ensures var base, name := Ascii("/x/dist/v3dist"), Ascii("x");
            && !Occurs(STATIC_ROOT, base + [SLASH])
            && (forall urlKeeps: Text -> bool :: urlKeeps(base) ==> NormalizeBasePath(base, urlKeeps) == Accepted(base))
            && IsBasePath(base) && IsExtensionName(name)
            && ChangesTwice(ConsoleV3Profile, base, name, codec, STATIC_BASE + STATIC_BASE + ConsoleSource(name))
  {
    var base, name := Ascii("/x/dist/v3dist"), Ascii("x");
    SimplePathOfLiteral("/x/dist/v3dist");
    assert IsSafeExtensionName("x") && IsExtensionName(name);
    ExtensionNameBytes(name);
    SampleShape();
    hide *;
    SampleIsOrdinary(base, name);
    SampleIsCompleted(base, name);
    SimplePathIsBasePath(base);
    var body := STATIC_BASE + STATIC_BASE + ConsoleSource(name);
    BasePathWithoutCode(base);
    PrefixedWithoutCode(base, name, []);
    WithoutCodeConcat(STATIC_BASE, STATIC_BASE);
    WithoutCodeConcat(STATIC_BASE + STATIC_BASE, ConsoleSource(name));
    BegunTwice(base, name, 18);
    ConsoleTwice(base, name, codec, body);
  }
}
