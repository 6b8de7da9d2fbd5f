/** Profile by profile: when does a second pass over what was written change nothing? */
module ProfileIdempotence {
  import opened Bytes
  import opened LiteralSpec
  import opened ExpressionSpec
  import opened Stages
  import opened Responses
  import opened Policy
  import opened Profiles
  import opened BasePath
  import AppendIdempotence
  import ExactIdempotence
  import Html
  import HtmlMigMeta
  import MigMeta

  /** Whatever the body was, a second pass over what the profile wrote changes nothing. */
  ghost predicate IsIdempotent(profile: Profile, base: Text, name: Text, codec: MigMeta.Codec) {
    && IsText(base) && IsText(name)
    && var specs := ProfileSpecs(profile, base, name, codec);
       forall body :: Compose(specs, Compose(specs, body)) == Compose(specs, body)
  }

  /** The second pass changes what the first made of `body`. */
  ghost predicate ChangesTwice(profile: Profile, base: Text, name: Text, codec: MigMeta.Codec, body: Text) {
    && IsText(base) && IsText(name)
    && var specs := ProfileSpecs(profile, base, name, codec);
       Compose(specs, Compose(specs, body)) != Compose(specs, body)
  }

  lemma NotIdempotent(profile: Profile, base: Text, name: Text, codec: MigMeta.Codec, body: Text)
    requires ChangesTwice(profile, base, name, codec, body)
    ensures !IsIdempotent(profile, base, name, codec)
  {
    hide ProfileSpecs, Compose, IsText;
  }

  lemma BasePathIsText(base: Text)
    requires IsBasePath(base)
    ensures IsText(base) && (base == [] || base[0] == SLASH)
    ensures BACKTICK !in base && SINGLE_QUOTE !in base && DOUBLE_QUOTE !in base && Html.Plain(base)
  {
    hide IsBasePath, IsUrlPathByte;
    BasePathIsPlain(base);
    forall b | b in base ensures b >= 0x21 && b != BACKTICK && b != DOUBLE_QUOTE {
      UrlPathBytesAreAscii(b);
    }
    forall i | 0 <= i < |base| ensures !IsWhitespace(base[i]) {
      assert base[i] in base;
    }
  }

  // JavaScript bundles.

  /** A bundle is rewritten idempotently for every base path. */
  lemma BundlesAreIdempotent(base: Text, name: Text, codec: MigMeta.Codec)
    requires IsBasePath(base) && IsText(name)
    ensures IsIdempotent(JsBundleProfile, base, name, codec) && IsIdempotent(FrontendIndexProfile, base, name, codec)
  {
    hide IsBasePath, IsText, ProfileSpecs, Compose, BundleStage, Spec.Run, Spec.Valid;
    BasePathIsText(base);
    BundleSpecs(base, name, codec);
    var specs := [BundleStage(base)];
    forall body ensures Compose(specs, Compose(specs, body)) == Compose(specs, body) {
      BundleStageIsIdempotent(base, body);
      ComposeOne(BundleStage(base), body);
      ComposeOne(BundleStage(base), BundleStage(base).Run(body));
    }
  }

  // The index of ys1000: a bundle with two quoted proxy roots.

  const YS1000: Text := Ascii("ys1000")
  const YS1000_ROOT: Text := Ascii("/proxy/ys1000/")

  lemma YsRootBytes()
    ensures ProxyRoot(YS1000) == YS1000_ROOT && |YS1000_ROOT| == 14
    ensures forall b <- YS1000_ROOT :: 0x2F <= b <= 0x7A && b != BACKTICK && b != HtmlMigMeta.LETTER_A
  {
    var s := "/proxy/ys1000/";
    assert s == "/proxy/" + "ys1000" + "/";
    assert forall k :: 0 <= k < 14 ==> '/' <= s[k] <= 'z' && s[k] != 'a' && s[k] != '`';
    hide AsciiByte;
    forall b | b in YS1000_ROOT ensures 0x2F <= b <= 0x7A && b != BACKTICK && b != HtmlMigMeta.LETTER_A {
      var k :| 0 <= k < 14 && b == YS1000_ROOT[k];
      AsciiByteIsCode(s[k]);
    }
  }

  function QuotedStage(q: Byte, base: Text): (spec: Spec)
    ensures spec.Valid()
  {
    LiteralStage(ExactIdempotence.QuotedRule(q, base, YS1000_ROOT))
  }

  lemma QuotedSpecs(quote: string, q: Byte, base: Text)
    requires |quote| == 1 && AsciiByte(quote[0]) == q
    ensures SpecOf(QuotedProxyRule(quote, base)) == Ok(QuotedStage(q, base))
  {
    YsRootBytes();
    hide ProxyRoot, YS1000_ROOT;
    var root := YS1000_ROOT;
    assert Ascii(quote) == [q];
    assert [q] + base + root + [q] == [q] + (base + root) + [q];
  }

  lemma YsIndexSpecs(base: Text, name: Text, codec: MigMeta.Codec)
    requires IsText(base) && IsText(name)
    ensures ProfileSpecs(Ys1000FrontendIndexProfile, base, name, codec) ==
            [BundleStage(base)] + [QuotedStage(DOUBLE_QUOTE, base), QuotedStage(SINGLE_QUOTE, base)]
  {
    assert AsciiByte('"') == DOUBLE_QUOTE && AsciiByte('\'') == SINGLE_QUOTE;
    hide IsText, ProfileSpecs, SpecOf, SpecsOf, BundleStage, QuotedStage, AsciiByte, BundleRule, QuotedProxyRule;
    hide ConsoleRules, HtmlRulesOf, MigMetaTransform;
    BundleSpecs(base, name, codec);
    QuotedSpecs("\"", DOUBLE_QUOTE, base);
    QuotedSpecs("'", SINGLE_QUOTE, base);
    var rest := [QuotedStage(DOUBLE_QUOTE, base), QuotedStage(SINGLE_QUOTE, base)];
    SpecsOfExactRules([BundleRule(base)], [BundleStage(base)]);
    SpecsOfExactRules([QuotedProxyRule("\"", base), QuotedProxyRule("'", base)], rest);
    ProfileSpecsAre(Ys1000FrontendIndexProfile, base, name, codec, [BundleStage(base)], rest);
  }

  lemma ComposeThree(a: Spec, b: Spec, c: Spec, body: Text)
    requires a.Valid() && b.Valid() && c.Valid()
    ensures Compose([a] + [b, c], body) == c.Run(b.Run(a.Run(body)))
  {
    hide Spec.Valid, Spec.Run, Compose;
    assert [b, c] == [b] + [c];
    ComposeConcat([a], [b, c], body);
    ComposeConcat([b], [c], Compose([a], body));
    ComposeOne(a, body);
    ComposeOne(b, a.Run(body));
    ComposeOne(c, b.Run(a.Run(body)));
  }

  /** Without backticks and single quotes only the stage for double quotes does anything. */
  lemma OnlyDoubleQuotes(base: Text, text: Text)
    requires BACKTICK !in text && SINGLE_QUOTE !in text
    ensures BundleStage(base).Run(text) == text && QuotedStage(SINGLE_QUOTE, base).Run(text) == text
  {
    hide Substitute;
    assert AppendIdempotence.HOST_LITERAL[0] == AsciiByte('`') == BACKTICK;
    assert AppendIdempotence.HOST_LITERAL[0] in AppendIdempotence.HOST_LITERAL;
    ExactIdempotence.KeptWithoutByte(BundleStage(base).rule, text, BACKTICK);
    ExactIdempotence.KeptWithoutByte(QuotedStage(SINGLE_QUOTE, base).rule, text, SINGLE_QUOTE);
  }

  /** Two proxy roots that share a double quote. */
  const SHARED_QUOTE_BODY: Text := ExactIdempotence.Neighbours(DOUBLE_QUOTE, YS1000_ROOT)

  lemma SharedQuoteChangesTwice(base: Text, name: Text, codec: MigMeta.Codec)
    requires IsBasePath(base) && IsText(name) && base != []
    ensures ChangesTwice(Ys1000FrontendIndexProfile, base, name, codec, SHARED_QUOTE_BODY)
  {
    hide *;
    BasePathIsText(base);
    YsIndexSpecs(base, name, codec);
    var a, b, c := BundleStage(base), QuotedStage(DOUBLE_QUOTE, base), QuotedStage(SINGLE_QUOTE, base);
    SharedQuoteRuns(base);
    var x := SHARED_QUOTE_BODY;
    OnlyDoubleQuotes(base, x);
    OnlyDoubleQuotes(base, b.Run(x));
    OnlyDoubleQuotes(base, b.Run(b.Run(x)));
    ComposeThree(a, b, c, x);
    ComposeThree(a, b, c, b.Run(x));
    SecondPassChanges(Ys1000FrontendIndexProfile, base, name, codec, [a] + [b, c], x);
  }

  lemma SecondPassChanges(profile: Profile, base: Text, name: Text, codec: MigMeta.Codec, specs: seq<Spec>, body: Text)
    requires IsText(base) && IsText(name) && AllValid(specs) && ProfileSpecs(profile, base, name, codec) == specs
    requires Compose(specs, Compose(specs, body)) != Compose(specs, body)
    ensures ChangesTwice(profile, base, name, codec, body)
  {
    hide IsText, ProfileSpecs, Compose;
  }

  lemma SharedQuoteRuns(base: Text)
    requires BACKTICK !in base && SINGLE_QUOTE !in base && DOUBLE_QUOTE !in base && base != []
    ensures var b, x := QuotedStage(DOUBLE_QUOTE, base), SHARED_QUOTE_BODY;
            && b.Run(b.Run(x)) != b.Run(x)
            && (forall t <- [x, b.Run(x), b.Run(b.Run(x))] :: BACKTICK !in t && SINGLE_QUOTE !in t)
  {
    YsRootBytes();
    hide Substitute, Ascii, YS1000_ROOT;
    var m, q := YS1000_ROOT, DOUBLE_QUOTE;
    ExactIdempotence.SharedQuote(q, base, m);
    var b, x := QuotedStage(q, base), SHARED_QUOTE_BODY;
    assert x == [q] + m + [q] + m + [q];
    assert b.Run(x) == [q] + (base + m) + [q] + m + [q];
    assert b.Run(b.Run(x)) == [q] + base + m + ([q] + (base + m) + [q]);
    assert |b.Run(b.Run(x))| > |b.Run(x)|;
  }

  /** The index of ys1000 is rewritten idempotently only when there is no base path to insert. */
  lemma Ys1000FrontendIndexIsIdempotentExactlyWhen(base: Text, name: Text, codec: MigMeta.Codec)
    requires IsBasePath(base) && IsText(name)
    ensures IsIdempotent(Ys1000FrontendIndexProfile, base, name, codec) <==> base == []
  {
    hide IsBasePath, IsText, ProfileSpecs, Compose, BundleStage, QuotedStage, Spec.Run, Spec.Valid;
    BasePathIsText(base);
    if base != [] {
      SharedQuoteChangesTwice(base, name, codec);
      NotIdempotent(Ys1000FrontendIndexProfile, base, name, codec, SHARED_QUOTE_BODY);
    } else {
      YsIndexSpecs(base, name, codec);
      var a, b, c := BundleStage(base), QuotedStage(DOUBLE_QUOTE, base), QuotedStage(SINGLE_QUOTE, base);
      forall body ensures Compose([a] + [b, c], Compose([a] + [b, c], body)) == Compose([a] + [b, c], body) {
        var once := a.Run(body);
        BundleStageIsIdempotent(base, body);
        NothingToQuote(DOUBLE_QUOTE, once);
        NothingToQuote(SINGLE_QUOTE, once);
        ComposeThree(a, b, c, body);
        ComposeThree(a, b, c, once);
      }
    }
  }

  lemma NothingToQuote(q: Byte, text: Text)
    ensures QuotedStage(q, []).Run(text) == text
  {
    hide Substitute, YS1000_ROOT;
    var m := YS1000_ROOT;
    assert [] + m == m;
    ExactIdempotence.SameIsKept(ExactIdempotence.Quoted(q, m), text);
  }

  // Body by body: what the second pass of that index finds.

  /** What the quoted stages look for has nothing to do with the stage before them, nor with each other. */
  lemma QuotedRootsAreOutsiders(base: Text, q: Byte, other: Byte)
    requires BACKTICK !in base && SINGLE_QUOTE !in base && DOUBLE_QUOTE !in base
    requires q in [SINGLE_QUOTE, DOUBLE_QUOTE] && other in [SINGLE_QUOTE, DOUBLE_QUOTE] && q != other
    ensures IsOutsider(BundleStage(base).rule, ExactIdempotence.Neighbours(q, YS1000_ROOT))
    ensures IsOutsider(QuotedStage(other, base).rule, ExactIdempotence.Neighbours(q, YS1000_ROOT))
    ensures IsOutsider(QuotedStage(other, base).rule, ExactIdempotence.Quoted(q, YS1000_ROOT))
  {
    HostBytes(base);
    YsRootBytes();
    ExactIdempotence.QuotedHolds(q, YS1000_ROOT);
    hide Ascii, YS1000_ROOT, AppendIdempotence.HOST_LITERAL, TrimStartSlashes, ProxyRoot;
    hide ExactIdempotence.Quoted, ExactIdempotence.Neighbours, ExactIdempotence.QuotedRule, QuotedStage;
    QuotedOutsider(base, other, ExactIdempotence.Neighbours(q, YS1000_ROOT));
    QuotedOutsider(base, other, ExactIdempotence.Quoted(q, YS1000_ROOT));
  }

  lemma QuotedOutsider(base: Text, q: Byte, v: Text)
    requires q !in v && v != [] && v[0] !in base && v[0] !in YS1000_ROOT
    ensures IsOutsider(QuotedStage(q, base).rule, v)
  {
    hide YS1000_ROOT, ExactIdempotence.QuotedRule;
    ExactIdempotence.QuotedBeginsOutside(q, base, YS1000_ROOT, v);
  }

  lemma HostBytes(base: Text)
    requires SINGLE_QUOTE !in base && DOUBLE_QUOTE !in base && BACKTICK !in base
    ensures var host, suffix := AppendIdempotence.HOST_LITERAL, TrimStartSlashes(base) + Ascii("/");
            && host != [] && host[0] == BACKTICK && BACKTICK !in host[1..] + suffix
            && forall b <- host + suffix :: b != SINGLE_QUOTE && b != DOUBLE_QUOTE
  {
    var s := "`//${window.location.host}/";
    assert forall k :: 0 <= k < |s| ==> s[k] != '\'' && s[k] != '"' && (s[k] == '`' <==> k == 0);
    TrimmedHoldsLess(base);
    assert AsciiByte('/') == SLASH;
    hide AsciiByte;
    forall k | 0 <= k < |s|
      ensures var b := AppendIdempotence.HOST_LITERAL[k];
              b != SINGLE_QUOTE && b != DOUBLE_QUOTE && (b == BACKTICK <==> k == 0)
    {
      AsciiByteIsCode(s[k]);
    }
  }

  lemma HostIsOutsider(base: Text, q: Byte)
    requires SINGLE_QUOTE !in base && DOUBLE_QUOTE !in base && BACKTICK !in base
    requires q in [SINGLE_QUOTE, DOUBLE_QUOTE]
    ensures var host, suffix := AppendIdempotence.HOST_LITERAL, TrimStartSlashes(base) + Ascii("/");
            && IsOutsider(QuotedStage(q, base).rule, host)
            && BeginsOutside(QuotedStage(q, base).rule, host + suffix)
  {
    HostBytes(base);
    YsRootBytes();
    hide Ascii, YS1000_ROOT, AppendIdempotence.HOST_LITERAL, TrimStartSlashes, ProxyRoot;
    hide ExactIdempotence.QuotedRule, IsOutsider, BeginsOutside;
    var host, suffix := AppendIdempotence.HOST_LITERAL, TrimStartSlashes(base) + Ascii("/");
    assert forall b :: b in host ==> b in host + suffix;
    ExactIdempotence.QuotedBeginsOutside(q, base, YS1000_ROOT, host);
    ExactIdempotence.QuotedBeginsOutside(q, base, YS1000_ROOT, host + suffix);
  }

  /** The bundle stage leaves alone what the three stages have written. */
  lemma BundleStageKeeps(base: Text, body: Text)
    requires SINGLE_QUOTE !in base && DOUBLE_QUOTE !in base && BACKTICK !in base
    ensures var a, b, c := BundleStage(base), QuotedStage(DOUBLE_QUOTE, base), QuotedStage(SINGLE_QUOTE, base);
            a.Run(c.Run(b.Run(a.Run(body)))) == c.Run(b.Run(a.Run(body)))
  {
    var host, suffix := AppendIdempotence.HOST_LITERAL, TrimStartSlashes(base) + Ascii("/");
    var a, b, c := BundleStage(base), QuotedStage(DOUBLE_QUOTE, base), QuotedStage(SINGLE_QUOTE, base);
    HostBytes(base);
    HostIsOutsider(base, DOUBLE_QUOTE);
    HostIsOutsider(base, SINGLE_QUOTE);
    BundleStageIsIdempotent(base, body);
    hide Ascii, YS1000_ROOT, AppendIdempotence.HOST_LITERAL, TrimStartSlashes, Substitute, At, IsOutsider,
      BeginsOutside;
    hide ExactIdempotence.Quoted;
    var once := a.Run(body);
    forall j: nat | At(once, j, host) ensures At(once, j, host + suffix) {
      SettledOrOverlapped(a.rule, once, 0, j);
      HostDoesNotOverlap(once, host, j);
      AtConcat(once, j, host, suffix);
    }
    FollowerStays(b.rule, host, suffix, once, 0);
    FollowerStays(c.rule, host, suffix, b.Run(once), 0);
    var written := c.Run(b.Run(once));
    forall j: nat | At(written, j, host) && j <= |written| ensures At(written, j + |host|, suffix) {
      AtConcat(written, j, host, suffix);
    }
    SettledIsKept(a.rule, written, 0);
    assert written[0..] == written;
  }

  lemma HostDoesNotOverlap(text: Text, host: Text, j: nat)
    requires At(text, j, host) && host != [] && host[0] == BACKTICK && BACKTICK !in host[1..]
    ensures forall m: nat :: m < j < m + |host| ==> !At(text, m, host)
  {
    hide At;
    forall m: nat | m < j < m + |host| ensures !At(text, m, host) {
      AtHasByte(text, j, host, j);
      assert host[j - m] == host[1..][j - m - 1];
      if At(text, m, host) {
        AtHasByte(text, m, host, j);
      }
    }
  }

  /** For a base path: a body settles after one pass exactly when no two quoted proxy roots share a quote in it. */
  lemma Ys1000FrontendIndexSettlesExactlyWhen(base: Text, name: Text, codec: MigMeta.Codec, body: Text)
    requires IsBasePath(base) && IsText(name) && base != []
    ensures IsText(base)
    ensures var specs := ProfileSpecs(Ys1000FrontendIndexProfile, base, name, codec);
            Compose(specs, Compose(specs, body)) == Compose(specs, body) <==>
            && !Occurs(ExactIdempotence.Neighbours(DOUBLE_QUOTE, YS1000_ROOT), body)
            && !Occurs(ExactIdempotence.Neighbours(SINGLE_QUOTE, YS1000_ROOT), body)
  {
    assert DOUBLE_QUOTE != SINGLE_QUOTE;
    hide *;
    BasePathIsText(base);
    YsIndexSpecs(base, name, codec);
    var a, b, c := BundleStage(base), QuotedStage(DOUBLE_QUOTE, base), QuotedStage(SINGLE_QUOTE, base);
    ComposeThree(a, b, c, body);
    ComposeThree(a, b, c, c.Run(b.Run(a.Run(body))));
    BundleStageKeeps(base, body);
    QuotedStagesSettle(base, a.Run(body));
    QuotedRootsAreOutsiders(base, DOUBLE_QUOTE, SINGLE_QUOTE);
    QuotedRootsAreOutsiders(base, SINGLE_QUOTE, DOUBLE_QUOTE);
    NeighboursThroughBundle(base, DOUBLE_QUOTE, body);
    NeighboursThroughBundle(base, SINGLE_QUOTE, body);
  }

  lemma NeighboursThroughBundle(base: Text, q: Byte, body: Text)
    requires IsOutsider(BundleStage(base).rule, ExactIdempotence.Neighbours(q, YS1000_ROOT))
    ensures Occurs(ExactIdempotence.Neighbours(q, YS1000_ROOT), BundleStage(base).Run(body)) <==>
            Occurs(ExactIdempotence.Neighbours(q, YS1000_ROOT), body)
  {
    hide Ascii, YS1000_ROOT, AppendIdempotence.HOST_LITERAL, TrimStartSlashes, Substitute, IsOutsider, Occurs;
    OutsiderOccurs(BundleStage(base).rule, ExactIdempotence.Neighbours(q, YS1000_ROOT), body, 0);
    assert body[0..] == body;
  }

  /** The two quoted stages, one after the other. */
  lemma QuotedStagesSettle(base: Text, text: Text)
    requires BACKTICK !in base && SINGLE_QUOTE !in base && DOUBLE_QUOTE !in base && base != []
    ensures var b, c := QuotedStage(DOUBLE_QUOTE, base), QuotedStage(SINGLE_QUOTE, base);
            c.Run(b.Run(c.Run(b.Run(text)))) == c.Run(b.Run(text)) <==>
            && !Occurs(ExactIdempotence.Neighbours(DOUBLE_QUOTE, YS1000_ROOT), text)
            && !Occurs(ExactIdempotence.Neighbours(SINGLE_QUOTE, YS1000_ROOT), text)
  {
    YsRootBytes();
    QuotedRootsAreOutsiders(base, DOUBLE_QUOTE, SINGLE_QUOTE);
    QuotedRootsAreOutsiders(base, SINGLE_QUOTE, DOUBLE_QUOTE);
    hide Ascii, YS1000_ROOT, ProxyRoot, Substitute, Occurs, IsOutsider, ExactIdempotence.Quoted;
    hide ExactIdempotence.Neighbours;
    var m := YS1000_ROOT;
    var b, c := QuotedStage(DOUBLE_QUOTE, base), QuotedStage(SINGLE_QUOTE, base);
    var u := b.Run(text);
    var w := c.Run(u);
    assert text[0..] == text && u[0..] == u;
    ExactIdempotence.QuotedSettlesExactlyWhen(DOUBLE_QUOTE, base, m, text);
    ExactIdempotence.QuotedSettlesExactlyWhen(SINGLE_QUOTE, base, m, u);
    OutsiderOccurs(b.rule, ExactIdempotence.Neighbours(SINGLE_QUOTE, m), text, 0);
    OutsiderOccurs(c.rule, ExactIdempotence.Quoted(DOUBLE_QUOTE, m), u, 0);
    QuotedStageKeepsExactlyWhen(base, DOUBLE_QUOTE, u);
    QuotedStageKeepsExactlyWhen(base, DOUBLE_QUOTE, w);
    QuotedStageKeepsExactlyWhen(base, SINGLE_QUOTE, b.Run(w));
  }

  lemma QuotedStageKeepsExactlyWhen(base: Text, q: Byte, text: Text)
    requires base != []
    ensures var stage := QuotedStage(q, base);
            && (stage.Run(text) == text <==> !Occurs(ExactIdempotence.Quoted(q, YS1000_ROOT), text))
            && |stage.Run(text)| >= |text| && (stage.Run(text) != text ==> |stage.Run(text)| > |text|)
  {
    hide Ascii, YS1000_ROOT, Substitute, Occurs;
    var s, r := ExactIdempotence.Quoted(q, YS1000_ROOT), ExactIdempotence.Quoted(q, base + YS1000_ROOT);
    if Occurs(s, text) {
      ExactIdempotence.OccurrenceMakesLonger(s, r, text);
    } else {
      ExactIdempotence.KeptWithoutSource(QuotedStage(q, base).rule, text);
    }
  }

  // The assets of kubekey: one exact rule.

  lemma KubekeySpecs(base: Text, name: Text, codec: MigMeta.Codec)
    requires IsText(base) && IsText(name)
    ensures KUBEKEY_LEGACY_ROOT != []
    ensures ProfileSpecs(KubekeyAssetProfile, base, name, codec) ==
            [LiteralStage(Replacing(KUBEKEY_LEGACY_ROOT, base))]
  {
    LegacyRootBytes();
    hide IsText, ProfileSpecs, KUBEKEY_LEGACY_ROOT, ConsoleRules, HtmlRulesOf, MigMetaTransform;
    var stage := LiteralStage(Replacing(KUBEKEY_LEGACY_ROOT, base));
    SpecsOfExactRules([ExactRule(KUBEKEY_LEGACY_ROOT, base)], [stage]);
    SpecsOfExactRules([], []);
    assert [stage] + [] == [stage];
    ProfileSpecsAre(KubekeyAssetProfile, base, name, codec, [stage], []);
  }

  /** The base path does not bring the legacy root back, alone or with what stands after it. */
  predicate KeepsLegacyRootAway(base: Text) {
    || base == KUBEKEY_LEGACY_ROOT
    || (base != [] && !Occurs(KUBEKEY_LEGACY_ROOT, base) && !ExactIdempotence.EndBegins(base, KUBEKEY_LEGACY_ROOT))
  }

  lemma KubekeyAssetIsIdempotentExactlyWhen(base: Text, name: Text, codec: MigMeta.Codec)
    requires IsBasePath(base) && IsText(name)
    ensures IsIdempotent(KubekeyAssetProfile, base, name, codec) <==> KeepsLegacyRootAway(base)
  {
    BasePathIsText(base);
    LegacyRootBytes();
    hide IsBasePath, IsText, ProfileSpecs, Compose, Substitute, KUBEKEY_LEGACY_ROOT, Occurs, ExactIdempotence.EndBegins;
    hide ExactIdempotence.OnlyBeginsWith;
    KubekeySpecs(base, name, codec);
    var rule := Replacing(KUBEKEY_LEGACY_ROOT, base);
    ExactIdempotence.IdempotentExactlyWhen(KUBEKEY_LEGACY_ROOT, base, SLASH);
    forall body ensures Compose([LiteralStage(rule)], body) == Rewritten(rule, body) {
      ComposeOne(LiteralStage(rule), body);
    }
  }

  const REGION_BASE: Text := Ascii("/regions/5")

  /** A base path for which kubekey assets change again: its end begins the legacy root. */
  lemma BasePathBeginsLegacyRoot(name: Text, codec: MigMeta.Codec)
    requires IsText(name)
    ensures IsBasePath(REGION_BASE) && |KUBEKEY_LEGACY_ROOT| == 37
    ensures ChangesTwice(KubekeyAssetProfile, REGION_BASE, name, codec, KUBEKEY_LEGACY_ROOT + KUBEKEY_LEGACY_ROOT[2..])
  {
    SimplePathOfLiteral("/regions/5");
    EndOfRegionBeginsRoot();
    LegacyRootBytes();
    hide *;
    SimplePathIsBasePath(REGION_BASE);
    BasePathIsText(REGION_BASE);
    var x := ExactIdempotence.NotIdempotentWhenEndBegins(KUBEKEY_LEGACY_ROOT, REGION_BASE, SLASH, 8);
    KubekeyCounterexample(REGION_BASE, name, codec, x);
  }

  lemma KubekeyCounterexample(base: Text, name: Text, codec: MigMeta.Codec, x: Text)
    requires IsText(base) && IsText(name)
    requires KUBEKEY_LEGACY_ROOT != [] && ExactIdempotence.IsCounterexample(KUBEKEY_LEGACY_ROOT, base, x)
    ensures ChangesTwice(KubekeyAssetProfile, base, name, codec, x)
  {
    hide IsText, ProfileSpecs, Compose, Substitute, KUBEKEY_LEGACY_ROOT;
    KubekeySpecs(base, name, codec);
    var stage := LiteralStage(Replacing(KUBEKEY_LEGACY_ROOT, base));
    ComposeOne(stage, x);
    ComposeOne(stage, stage.Run(x));
    SecondPassChanges(KubekeyAssetProfile, base, name, codec, [stage], x);
  }

  lemma EndOfRegionBeginsRoot()
    ensures |REGION_BASE| == 10 && REGION_BASE[8..] <= KUBEKEY_LEGACY_ROOT && REGION_BASE != KUBEKEY_LEGACY_ROOT
    ensures !Occurs(KUBEKEY_LEGACY_ROOT, REGION_BASE)
  {
    LegacyRootBytes();
    assert "/regions/5"[8] == '/' && "/regions/5"[9] == '5' && |REGION_BASE| == 10;
    assert AsciiByte('/') == SLASH && AsciiByte('5') == 0x35;
    hide KUBEKEY_LEGACY_ROOT;
    assert REGION_BASE[8..] == [SLASH, 0x35] == KUBEKEY_LEGACY_ROOT[..2];
    ExactIdempotence.TooShort(KUBEKEY_LEGACY_ROOT, REGION_BASE);
  }

  predicate IsNameChar(c: char) {
    'a' <= c <= 'z' || '0' <= c <= '9' || c == '-'
  }

  lemma SimplePathOfLiteral(s: string)
    requires 0 < |s| <= MAX_BASE_PATH_LENGTH && s[0] == '/' && s[|s| - 1] != '/'
    requires forall i :: 0 <= i < |s| ==> s[i] == '/' || IsNameChar(s[i])
    requires forall i :: 0 <= i < |s| - 1 && s[i] == '/' ==> s[i + 1] != '/'
    ensures IsSimplePath(Ascii(s))
  {
    hide AsciiByte;
    forall i | 0 <= i < |s|
      ensures Ascii(s)[i] == SLASH <==> s[i] == '/'
      ensures Ascii(s)[i] == SLASH || IsNameByte(Ascii(s)[i])
    {
      AsciiByteIsSlash(s[i]);
      AsciiByteIsCode(s[i]);
    }
  }

  // Pages behind the named proxy.

  /** For a name other than kubekey: exactly when the base path keeps the root from being found again. */
  lemma NamedProxyHtmlIsIdempotentExactlyWhen(base: Text, name: Text, codec: MigMeta.Codec)
    requires IsBasePath(base) && IsText(name) && Html.Plain(ProxyRoot(name)) && name != KUBEKEY
    ensures IsIdempotent(NamedProxyHtmlProfile, base, name, codec) <==> Html.RootIsHidden(SiteOf(base, name))
  {
    BasePathIsText(base);
    NoLegacyStages(base, name);
    hide IsBasePath, IsText, ProfileSpecs, Compose, Html.HTML_HEADS, Html.Plain, ProxyRoot, Html.RootIsHidden;
    hide LegacyStages, Html.StagesOf;
    HtmlSpecs(base, name, codec);
    var stages := Html.StagesOf(SiteOf(base, name), Html.HTML_HEADS);
    assert stages + [] == stages;
    Html.HtmlStagesAreIdempotentExactlyWhen(SiteOf(base, name));
    if Html.RootIsHidden(SiteOf(base, name)) {
      assert forall body :: Compose(stages, Compose(stages, body)) == Compose(stages, body);
    }
  }

  lemma NoLegacyStages(base: Text, name: Text)
    requires name != KUBEKEY
    ensures LegacyStages(base, name) == []
  {
  }

  lemma YsSite(base: Text)
    requires IsBasePath(base)
    ensures SiteOf(base, YS1000) == Html.Site(base, YS1000_ROOT) && SiteOf(base, YS1000).IsPlain()
    ensures IsText(YS1000) && YS1000 != KUBEKEY && HtmlMigMeta.IsShortRoot(YS1000_ROOT)
  {
    AsciiIsText("ys1000");
    assert |YS1000| == 6 && |KUBEKEY| == 7;
    YsRootIsPlain();
    hide *;
    BasePathIsText(base);
    YsSiteOf(base);
  }

  lemma YsSiteOf(base: Text)
    requires Html.Plain(base) && Html.Plain(YS1000_ROOT) && ProxyRoot(YS1000) == YS1000_ROOT
    ensures SiteOf(base, YS1000) == Html.Site(base, YS1000_ROOT) && SiteOf(base, YS1000).IsPlain()
  {
    hide ProxyRoot, YS1000_ROOT;
  }

  lemma YsRootIsPlain()
    ensures ProxyRoot(YS1000) == YS1000_ROOT && Html.Plain(YS1000_ROOT) && HtmlMigMeta.IsShortRoot(YS1000_ROOT)
  {
    YsRootBytes();
    HtmlMigMeta.NameEndsInA();
    hide ProxyRoot, YS1000_ROOT, Ascii;
    assert forall i :: 0 <= i < |YS1000_ROOT| ==> YS1000_ROOT[i] in YS1000_ROOT;
  }

  function YsPayload(base: Text, codec: MigMeta.Codec): Text -> Option<Text> {
    MigMeta.PayloadRewriter(codec, base + MigMeta.LEGACY_BASE_URI)
  }

  /** A page of ys1000: one pass, then the metadata. */
  function YsPage(base: Text, codec: MigMeta.Codec, body: Text): Text {
    MigMeta.Splice(YsPayload(base, codec), Html.InsertAll(SiteOf(base, YS1000), Html.HTML_HEADS, body))
  }

  lemma YsPageIsResponse(base: Text, codec: MigMeta.Codec, body: Text)
    requires IsBasePath(base)
    ensures IsText(base) && IsText(YS1000)
    ensures Compose(ProfileSpecs(Ys1000HtmlProfile, base, YS1000, codec), body) == YsPage(base, codec, body)
  {
    BasePathIsText(base);
    YsSite(base);
    YsTransform(base, codec);
    hide IsBasePath, IsText, ProfileSpecs, Compose, ProxyRoot, MigMeta.Splice, Html.InsertAll, Ascii, YS1000, KUBEKEY;
    hide MigMetaTransform;
    HtmlResponseIsOnePass(base, YS1000, codec, body);
  }

  lemma YsTransform(base: Text, codec: MigMeta.Codec)
    ensures forall page :: MigMetaTransform(codec, base, YS1000)(page) == MigMeta.Splice(YsPayload(base, codec), page)
  {
    assert "/proxy/" + "ys1000" == "/proxy/ys1000";
    assert base + Ascii("/proxy/") + YS1000 == base + MigMeta.LEGACY_BASE_URI;
    hide MigMeta.Splice;
  }

  lemma YsPayloadIsPlain(base: Text, codec: MigMeta.Codec)
    requires MigMeta.Lawful(codec)
    ensures HtmlMigMeta.HasPlainResults(YsPayload(base, codec))
  {
    hide MigMeta.Lawful, MigMeta.IsBase64;
    var desired := base + MigMeta.LEGACY_BASE_URI;
    forall encoded: Text | MigMeta.RewritePayload(codec, desired, encoded).Some?
      ensures forall b <- MigMeta.RewritePayload(codec, desired, encoded).value ::
                !MigMeta.IsQuote(b) && !IsWhitespace(b)
    {
      MigMeta.PayloadHasNoQuote(codec, desired, encoded);
    }
  }

  /** Splicing leaves nothing to insert, and is itself idempotent. */
  lemma YsSecondPass(base: Text, codec: MigMeta.Codec, body: Text)
    requires IsBasePath(base) && base != [] && MigMeta.Lawful(codec) && Html.RootIsHidden(SiteOf(base, YS1000))
    ensures YsPage(base, codec, YsPage(base, codec, body)) == YsPage(base, codec, body)
  {
    hide *;
    var site, heads := SiteOf(base, YS1000), Html.HTML_HEADS;
    BasePathIsText(base);
    YsSite(base);
    PageOf(base, codec);
    Html.HtmlHeadsAreHeads();
    var page := Html.InsertAll(site, heads, body);
    var written := MigMeta.Splice(YsPayload(base, codec), page);
    Html.SecondPassChangesNothing(site, heads, body);
    Html.KeptExactlyWithoutSite(site, heads, page);
    YsPayloadIsPlain(base, codec);
    HtmlMigMeta.HtmlHeadsAreAttributeHeads();
    HtmlMigMeta.SpliceKeepsPage(YsPayload(base, codec), site, heads, page);
    Html.KeptExactlyWithoutSite(site, heads, written);
    YsSpliceIsIdempotent(base, codec, page);
  }

  lemma PageOf(base: Text, codec: MigMeta.Codec)
    ensures forall body :: YsPage(base, codec, body) ==
              MigMeta.Splice(YsPayload(base, codec), Html.InsertAll(SiteOf(base, YS1000), Html.HTML_HEADS, body))
    ensures SiteOf(base, YS1000).base == base
  {
    hide MigMeta.Splice, Html.InsertAll, Ascii;
  }

  lemma YsSpliceIsIdempotent(base: Text, codec: MigMeta.Codec, page: Text)
    requires IsText(base) && base != [] && MigMeta.Lawful(codec)
    ensures var splice := YsPayload(base, codec);
            MigMeta.Splice(splice, MigMeta.Splice(splice, page)) == MigMeta.Splice(splice, page)
  {
    hide MigMeta.Lawful, MigMeta.Splice;
    MigMeta.MigMetaIsIdempotent(codec, base, page);
  }

  /** A head followed by the root is found again in what it becomes, when the base path begins like the root. */
  lemma HeadWithRootTwice(site: Html.Site, h: Text)
    requires site.IsPlain() && h in Html.HTML_HEADS && !Html.RootIsHidden(site)
    ensures var heads := Html.HTML_HEADS;
            && Html.InsertAll(site, heads, h + site.root) == h + (site.base + site.root)
            && Html.InsertAll(site, heads, h + (site.base + site.root)) == h + (site.base + (site.base + site.root))
  {
    var heads := Html.HTML_HEADS;
    Html.HtmlHeadsAreHeads();
    hide Html.HTML_HEADS, Html.Heads, Html.Plain, Html.InsertAll, Html.Leading;
    HeadIsPassed(site, heads, h, site.root);
    var rest := site.base + site.root;
    Html.PlainConcat(site.base, site.root);
    assert h + site.root <= h + rest by {
      assert (h + rest)[..|h + site.root|] == h + rest[..|site.root|];
    }
    HeadIsPassed(site, heads, h, rest);
  }

  lemma HeadIsPassed(site: Html.Site, heads: seq<Text>, h: Text, rest: Text)
    requires site.IsPlain() && Html.Heads(heads) && h in heads && Html.Plain(rest) && h + site.root <= h + rest
    ensures Html.InsertAll(site, heads, h + rest) == h + (site.base + rest)
  {
    hide Html.Heads, Html.InsertAll, Html.Leading;
    var b := h + rest;
    Html.HeadIsNotEmpty(heads, h);
    assert b[1..] == h[1..] + rest;
    Html.PlainConcat(h[1..], rest);
    Html.LeadingIsAny(site, heads, b, h);
    Html.BlockIsPassed(site, heads, b);
    assert b[|h|..] == rest;
    Reassociate(h, site.base, rest);
  }

  lemma OneQuoteInHead(h: Text, rest: Text)
    requires HtmlMigMeta.IsAttributeHead(h) && SINGLE_QUOTE !in rest && DOUBLE_QUOTE !in rest
    ensures !HtmlMigMeta.HasTwoQuotes(h + rest)
  {
    forall i | |h| <= i < |h + rest| ensures !MigMeta.IsQuote((h + rest)[i]) {
      assert (h + rest)[i] == rest[i - |h|];
    }
  }

  lemma YsHeadChangesTwice(base: Text, codec: MigMeta.Codec, h: Text)
    requires IsBasePath(base) && !Html.RootIsHidden(SiteOf(base, YS1000)) && h in Html.HTML_HEADS
    ensures YsPage(base, codec, h + YS1000_ROOT) == h + (base + YS1000_ROOT)
    ensures YsPage(base, codec, YsPage(base, codec, h + YS1000_ROOT)) == h + (base + (base + YS1000_ROOT))
  {
    hide *;
    BasePathIsText(base);
    YsSite(base);
    PageOf(base, codec);
    HeadWithRootTwice(SiteOf(base, YS1000), h);
    HtmlMigMeta.HtmlHeadsAreAttributeHeads();
    YsRootHasNoQuote();
    assert forall b <- base + YS1000_ROOT :: b in base || b in YS1000_ROOT;
    OneQuoteInHead(h, base + YS1000_ROOT);
    OneQuoteInHead(h, base + (base + YS1000_ROOT));
    HtmlMigMeta.KeptWithoutQuotes(YsPayload(base, codec), h + (base + YS1000_ROOT));
    HtmlMigMeta.KeptWithoutQuotes(YsPayload(base, codec), h + (base + (base + YS1000_ROOT)));
  }

  lemma YsRootHasNoQuote()
    ensures SINGLE_QUOTE !in YS1000_ROOT && DOUBLE_QUOTE !in YS1000_ROOT
  {
    YsRootBytes();
  }

  /** The pages of ys1000, metadata included, under a lawful codec. */
  lemma Ys1000HtmlIsIdempotentExactlyWhen(base: Text, codec: MigMeta.Codec)
    requires IsBasePath(base) && base != [] && MigMeta.Lawful(codec)
    ensures IsIdempotent(Ys1000HtmlProfile, base, YS1000, codec) <==> Html.RootIsHidden(SiteOf(base, YS1000))
  {
    hide IsBasePath, IsText, ProfileSpecs, Compose, MigMeta.Lawful, Html.RootIsHidden, YsPage, Html.HTML_HEADS;
    BasePathIsText(base);
    YsSite(base);
    var specs := ProfileSpecs(Ys1000HtmlProfile, base, YS1000, codec);
    forall body ensures Compose(specs, body) == YsPage(base, codec, body) {
      YsPageIsResponse(base, codec, body);
    }
    if Html.RootIsHidden(SiteOf(base, YS1000)) {
      forall body ensures Compose(specs, Compose(specs, body)) == Compose(specs, body) {
        YsSecondPass(base, codec, body);
      }
    } else {
      FirstHead();
      var h := Html.HTML_HEADS[0];
      YsHeadChangesTwice(base, codec, h);
      assert |h + (base + (base + YS1000_ROOT))| > |h + (base + YS1000_ROOT)|;
      SecondPassChanges(Ys1000HtmlProfile, base, YS1000, codec, specs, h + YS1000_ROOT);
      NotIdempotent(Ys1000HtmlProfile, base, YS1000, codec, h + YS1000_ROOT);
    }
  }

  lemma FirstHead()
    ensures |Html.HTML_HEADS| == 20 && Html.HTML_HEADS[0] in Html.HTML_HEADS
  {
  }

  /** A base path for which the pages of ys1000 change again, with and without the metadata stage. */
  lemma BasePathBeginsLikeRoot(codec: MigMeta.Codec)
    ensures var base, body := Ascii("/proxy/ys1000"), Html.HTML_HEADS[0] + YS1000_ROOT;
            && IsBasePath(base)
            && ChangesTwice(NamedProxyHtmlProfile, base, YS1000, codec, body)
            && ChangesTwice(Ys1000HtmlProfile, base, YS1000, codec, body)
  {
    var base := Ascii("/proxy/ys1000");
    SimplePathOfLiteral("/proxy/ys1000");
    RootBeginsLikeRoot();
    hide *;
    SimplePathIsBasePath(base);
    BasePathIsText(base);
    YsSite(base);
    FirstHead();
    RootIsSeen(base);
    YsHeadTwice(base, codec, Html.HTML_HEADS[0]);
  }

  lemma RootBeginsLikeRoot()
    ensures Ascii("/proxy/ys1000") != [] && YS1000_ROOT <= Ascii("/proxy/ys1000") + YS1000_ROOT
  {
    var base := Ascii("/proxy/ys1000");
    assert "/proxy/ys1000" + "/" == "/proxy/ys1000/";
    assert base + Ascii("/") == YS1000_ROOT && YS1000_ROOT[0] == AsciiByte('/');
  }

  lemma RootIsSeen(base: Text)
    requires base != [] && YS1000_ROOT <= base + YS1000_ROOT && SiteOf(base, YS1000) == Html.Site(base, YS1000_ROOT)
    ensures !Html.RootIsHidden(SiteOf(base, YS1000))
  {
  }

  lemma YsHeadTwice(base: Text, codec: MigMeta.Codec, h: Text)
    requires IsBasePath(base) && base != [] && !Html.RootIsHidden(SiteOf(base, YS1000)) && h in Html.HTML_HEADS
    ensures ChangesTwice(NamedProxyHtmlProfile, base, YS1000, codec, h + YS1000_ROOT)
    ensures ChangesTwice(Ys1000HtmlProfile, base, YS1000, codec, h + YS1000_ROOT)
  {
    hide *;
    BasePathIsText(base);
    YsSite(base);
    var body, once := h + YS1000_ROOT, h + (base + YS1000_ROOT);
    assert |h + (base + (base + YS1000_ROOT))| > |once|;
    YsHeadChangesTwice(base, codec, h);
    YsPageIsResponse(base, codec, body);
    YsPageIsResponse(base, codec, once);
    var spliced := ProfileSpecs(Ys1000HtmlProfile, base, YS1000, codec);
    SecondPassChanges(Ys1000HtmlProfile, base, YS1000, codec, spliced, body);
    HeadWithRootTwice(SiteOf(base, YS1000), h);
    NothingLegacy(base, codec, body);
    NothingLegacy(base, codec, once);
    var plain := ProfileSpecs(NamedProxyHtmlProfile, base, YS1000, codec);
    SecondPassChanges(NamedProxyHtmlProfile, base, YS1000, codec, plain, body);
  }

  lemma NothingLegacy(base: Text, codec: MigMeta.Codec, body: Text)
    requires IsBasePath(base) && IsText(base) && IsText(YS1000)
    ensures Compose(ProfileSpecs(NamedProxyHtmlProfile, base, YS1000, codec), body) ==
            Html.InsertAll(SiteOf(base, YS1000), Html.HTML_HEADS, body)
  {
    YsSite(base);
    hide IsBasePath, IsText, ProfileSpecs, Compose, ProxyRoot, Html.InsertAll, YS1000, KUBEKEY;
    HtmlResponseIsOnePass(base, YS1000, codec, body);
  }
}
