/** The pipelines of the rewrite profiles, and what a whole response becomes. */
module Profiles {
  import opened Bytes
  import opened Utf8
  import opened LiteralSpec
  import opened ExpressionSpec
  import opened Stages
  import opened Responses
  import opened Policy
  import Html
  import MigMeta
  import PrependIdempotence
  import StaticPrefixes
  import AppendIdempotence
  import ExactIdempotence

  /** A literal with the base path between its parts. */
  function Filled(parts: seq<string>, base: Text): Text {
    if parts == [] then []
    else if |parts| == 1 then Ascii(parts[0])
    else Ascii(parts[0]) + base + Filled(parts[1..], base)
  }

  function TrimStartSlashes(s: Text): Text {
    if s != [] && s[0] == SLASH then TrimStartSlashes(s[1..]) else s
  }

  datatype Rules = Rules(literals: seq<StageRule>, others: seq<StageRule>)

  /** What takes repeated slashes out of a URL, as the console has it. */
  const ONE_SLASH: string := "replace(/\\\\/\\\\/+/, '/')"

  /** How the console is to tell URLs from paths, up to the first base path. */
  const URL_TEST: string :=
    "toLowerCase()" + ".startsWith('http://') || " + "requestURL.toLowerCase()" + ".startsWith('https://') || "
    + "requestURL.startsWith('//')" + " ? requestURL : (requestURL." + ONE_SLASH + " === '"

  /** How it is to join a path to the root, without and with escaped quotes. */
  const JOINED_PATH: string := "path.startsWith('/') ? path : " + "\"/\".concat(path);"
  const JOINED_PATH_ESCAPED: string := "path.startsWith('/') ? path : " + "\\\"/\\\".concat(path);"

  /** How it is to recognise a URL in a path. */
  const PATH_TEST: string :=
    "toLowerCase()" + ".startsWith('http://') || " + "path.toLowerCase()" + ".startsWith('https://')) {"

  /** The exact rules of the console: a source, and the parts of a replacement between which the base path goes. */
  const CONSOLE_EXACTS: seq<(string, seq<string>)> := [
    ("return requestURL." + (ONE_SLASH + ";"),
     ["return requestURL." + URL_TEST,
      "' || requestURL." + ONE_SLASH + ".startsWith('",
      "/') ? requestURL." + ONE_SLASH + " : '",
      "/'.concat(requestURL." + ONE_SLASH + ".replace(/^\\\\/+/, '')));"]),
    ("return " + ("\"/\".concat(" + "path.trimLeft('/'));"),
     ["return " + JOINED_PATH]),
    ("return " + ("\\\"/\\\".concat(" + "path.trimLeft('/'));"),
     ["return " + JOINED_PATH_ESCAPED]),
    ("if (path." + "startsWith('http')) {",
     ["if (path." + PATH_TEST])
  ]

  /** The member expression rules: prefix, suffix, and the parts of what replaces the prefix. */
  const CONSOLE_MEMBERS: seq<(string, string, seq<string>)> := [
    ("basename: \"" + "\".concat(", ", \"/consolev3\")", ["basename: \"", "/\".concat("]),
    ("basename:\"" + "\".concat(", ",\"/consolev3\")", ["basename:\"", "/\".concat("]),
    ("basename: \\\"" + "\\\".concat(", ", \\\"/consolev3\\\")", ["basename: \\\"", "/\\\".concat("]),
    ("basename:\\\"" + "\\\".concat(", ",\\\"/consolev3\\\")", ["basename:\\\"", "/\\\".concat("])
  ]

  /** What the identifier rules put in the place of a match, from `start` to `end`. */
  function ConsoleTemplate(start: string, end: string): seq<string> {
    [start + "{identifier}" + "===\"",
     "\"||" + "{identifier}" + ".startsWith(\"",
     "/\")?" + "{identifier}" + ":\"",
     "/\".concat(" + "{identifier}" + (".replace(/^\\/+/,\"\")))" + end)]
  }

  /** The identifier rules: prefix, suffix, and the parts of the template. */
  const CONSOLE_TEMPLATES: seq<(string, string, seq<string>)> := [
    ("\"/\".concat(", ".trimLeft(\"/\"))", ConsoleTemplate("(", "")),
    ("return\"/\".concat(", ".trimLeft(\"/\"))", ConsoleTemplate("return(", "")),
    (")),", ".replace(/\\/\\/+/,\"/\")}",
     ConsoleTemplate(")),(" + "{identifier}" + "=" + "{identifier}" + ".replace(/\\/\\/+/,\"/\"),", "}"))
  ]

  /** `build_response_rewriter`. */
  function ConsoleRules(base: Text, source: Text): Rules {
    Rules(ConsolePrefixes(base, source) + ConsoleExacts(base), ConsoleMembers(base) + ConsoleTemplates(base))
  }

  function ConsolePrefixes(base: Text, source: Text): seq<StageRule> {
    [PrefixRule(source, base + source),
     PrefixRule(PrependIdempotence.STATIC_ROOT, base + PrependIdempotence.STATIC_ROOT)]
  }

  function ConsoleExacts(base: Text): seq<StageRule> {
    seq(|CONSOLE_EXACTS|, i requires 0 <= i < |CONSOLE_EXACTS| =>
      var (source, parts) := CONSOLE_EXACTS[i]; ExactRule(Ascii(source), Filled(parts, base)))
  }

  function ConsoleMembers(base: Text): seq<StageRule> {
    seq(|CONSOLE_MEMBERS|, i requires 0 <= i < |CONSOLE_MEMBERS| =>
      var (prefix, suffix, parts) := CONSOLE_MEMBERS[i];
      MemberRule(Ascii(prefix), Ascii(suffix), Filled(parts, base)))
  }

  function ConsoleTemplates(base: Text): seq<StageRule> {
    seq(|CONSOLE_TEMPLATES|, i requires 0 <= i < |CONSOLE_TEMPLATES| =>
      var (prefix, suffix, parts) := CONSOLE_TEMPLATES[i];
      TemplateRule(Ascii(prefix), Ascii(suffix), Filled(parts, base)))
  }

  const KUBEKEY_LEGACY_ROOT: Text := Ascii("/57516e69-2cb0-4d48-a8a8-2833cfff87a9")
  const KUBEKEY: Text := Ascii("kubekey")

  /** `/proxy/NAME/`. */
  function ProxyRoot(name: Text): Text {
    Ascii("/proxy/") + name + Ascii("/")
  }

  function SiteOf(base: Text, name: Text): Html.Site {
    Html.Site(base, ProxyRoot(name))
  }

  function HtmlRules(base: Text, name: Text): seq<StageRule> {
    var root := ProxyRoot(name);
    seq(20, i requires 0 <= i < 20 => ExactRule(Html.HTML_HEADS[i] + root, Html.HTML_HEADS[i] + base + root))
  }

  function HtmlRulesOf(base: Text, name: Text): seq<StageRule> {
    HtmlRules(base, name) + if name == KUBEKEY then [ExactRule(KUBEKEY_LEGACY_ROOT, base)] else []
  }

  function QuotedProxyRule(quote: string, base: Text): StageRule {
    ExactRule(Ascii(quote) + ProxyRoot(Ascii("ys1000")) + Ascii(quote),
              Ascii(quote) + base + ProxyRoot(Ascii("ys1000")) + Ascii(quote))
  }

  function BundleRule(base: Text): StageRule {
    AppendRule(AppendIdempotence.HOST_LITERAL, TrimStartSlashes(base) + Ascii("/"))
  }

  /** The base-URI transform of the last stage of the ys1000 profile. */
  function MigMetaTransform(codec: MigMeta.Codec, base: Text, name: Text): Text -> Text {
    var desired := base + Ascii("/proxy/") + name;
    (body: Text) => MigMeta.Splice(MigMeta.PayloadRewriter(codec, desired), body)
  }

  /** `build_selected_response_rewriter`. */
  function ProfileRules(profile: Profile, base: Text, name: Text, codec: MigMeta.Codec): Rules {
    match profile
    case ConsoleV3Profile =>
      ConsoleRules(base, StaticPrefixes.ConsoleSource(name))
    case FrontendIndexProfile => Rules([BundleRule(base)], [])
    case JsBundleProfile => Rules([BundleRule(base)], [])
    case Ys1000FrontendIndexProfile =>
      Rules([BundleRule(base)], [QuotedProxyRule("\"", base), QuotedProxyRule("'", base)])
    case KubekeyAssetProfile => Rules([ExactRule(KUBEKEY_LEGACY_ROOT, base)], [])
    case NamedProxyHtmlProfile => Rules(HtmlRulesOf(base, name), [])
    case Ys1000HtmlProfile => Rules(HtmlRulesOf(base, name), [TransformRule(MigMetaTransform(codec, base, name))])
  }

  // Every profile validates the body first and keeps it well formed up to its last stage.

  predicate IsText(s: Text) {
    Tail([], s) == Some([])
  }

  /** The rule has a stage whose literals are well formed. */
  predicate IsGood(rule: StageRule) {
    SpecOf(rule).Ok? && SpecOf(rule).value.Utf8Literals()
  }

  lemma TextConcat(a: Text, b: Text)
    requires IsText(a) && IsText(b)
    ensures IsText(a + b)
  {
    TailOfConcat([], a, b);
  }

  lemma AsciiIsText(s: string)
    ensures IsText(Ascii(s))
  {
    AsciiIsAccepted(Ascii(s));
  }

  lemma {:induction false} FilledIsText(parts: seq<string>, base: Text)
    requires IsText(base)
    ensures IsText(Filled(parts, base))
    decreases |parts|
  {
    hide IsText, Ascii;
    if |parts| == 0 {
      assert IsText([]) by { AsciiIsText(""); assert Ascii("") == []; }
    } else {
      AsciiIsText(parts[0]);
      if |parts| > 1 {
        FilledIsText(parts[1..], base);
        TextConcat(Ascii(parts[0]), base);
        TextConcat(Ascii(parts[0]) + base, Filled(parts[1..], base));
      }
    }
  }

  lemma {:induction false} TrimmedIsText(s: Text)
    requires IsText(s)
    ensures IsText(TrimStartSlashes(s))
    decreases |s|
  {
    if s != [] && s[0] == SLASH {
      assert [] + [s[0]] == [s[0]];
      TrimmedIsText(s[1..]);
    }
  }

  lemma ExactIsGood(source: Text, replacement: Text)
    requires source != [] && IsText(source) && IsText(replacement)
    ensures IsGood(ExactRule(source, replacement))
  {
  }

  lemma PrefixIsGood(source: Text, base: Text)
    requires source != [] && IsText(source) && IsText(base)
    ensures IsGood(PrefixRule(source, base + source))
  {
    hide Tail;
    TextConcat(base, source);
  }

  lemma ExpressionIsGood(prefix: string, suffix: string, parts: seq<string>, base: Text)
    requires prefix != "" && suffix != "" && IsText(base)
    ensures IsGood(MemberRule(Ascii(prefix), Ascii(suffix), Filled(parts, base)))
    ensures IsGood(TemplateRule(Ascii(prefix), Ascii(suffix), Filled(parts, base)))
  {
    hide Tail;
    AsciiIsText(prefix);
    AsciiIsText(suffix);
    FilledIsText(parts, base);
  }

  lemma FilledExactIsGood(source: string, parts: seq<string>, base: Text)
    requires source != "" && IsText(base)
    ensures IsGood(ExactRule(Ascii(source), Filled(parts, base)))
  {
    AsciiIsText(source);
    FilledIsText(parts, base);
    ExactIsGood(Ascii(source), Filled(parts, base));
  }

  ghost predicate AllGood(rules: seq<StageRule>) {
    forall i :: 0 <= i < |rules| ==> IsGood(rules[i])
  }

  lemma ConsoleRulesAreGood(base: Text, source: Text)
    requires IsText(base) && IsText(source) && source != []
    ensures GoodRules(ConsoleRules(base, source))
  {
    ConsoleSourcesAreNotEmpty();
    hide IsText, IsGood, ConsoleExacts, ConsoleMembers, ConsoleTemplates, Ascii, AllGood;
    ConsolePrefixesAreGood(base, source);
    ConsoleExactsAreGood(base);
    ConsoleExpressionsAreGood(base);
    GoodTogether(ConsolePrefixes(base, source), ConsoleExacts(base));
    GoodTogether(ConsoleMembers(base), ConsoleTemplates(base));
  }

  lemma GoodTogether(a: seq<StageRule>, b: seq<StageRule>)
    requires AllGood(a) && AllGood(b)
    ensures AllGood(a + b)
  {
    hide IsGood;
  }

  lemma ConsolePrefixesAreGood(base: Text, source: Text)
    requires IsText(base) && IsText(source) && source != []
    ensures AllGood(ConsolePrefixes(base, source))
  {
    hide IsText, IsGood, Ascii;
    AsciiIsText("/extensions-static/");
    PrependIdempotence.StaticRootSlashes();
    PrefixIsGood(source, base);
    PrefixIsGood(PrependIdempotence.STATIC_ROOT, base);
  }

  lemma ConsoleSourcesAreNotEmpty()
    ensures forall rule <- CONSOLE_EXACTS :: rule.0 != ""
    ensures forall rule <- CONSOLE_MEMBERS :: rule.0 != "" && rule.1 != ""
    ensures forall rule <- CONSOLE_TEMPLATES :: rule.0 != "" && rule.1 != ""
  {
  }

  lemma ConsoleExactsAreGood(base: Text)
    requires IsText(base) && forall rule <- CONSOLE_EXACTS :: rule.0 != ""
    ensures AllGood(ConsoleExacts(base))
  {
    hide IsText, IsGood, Ascii, Filled, CONSOLE_EXACTS;
    forall i | 0 <= i < |CONSOLE_EXACTS| ensures IsGood(ConsoleExacts(base)[i]) {
      assert CONSOLE_EXACTS[i] in CONSOLE_EXACTS;
      FilledExactIsGood(CONSOLE_EXACTS[i].0, CONSOLE_EXACTS[i].1, base);
    }
  }

  lemma ConsoleExpressionsAreGood(base: Text)
    requires IsText(base)
    requires forall rule <- CONSOLE_MEMBERS :: rule.0 != "" && rule.1 != ""
    requires forall rule <- CONSOLE_TEMPLATES :: rule.0 != "" && rule.1 != ""
    ensures AllGood(ConsoleMembers(base)) && AllGood(ConsoleTemplates(base))
  {
    hide IsText, IsGood, Ascii, Filled, CONSOLE_MEMBERS, CONSOLE_TEMPLATES;
    forall i | 0 <= i < |CONSOLE_MEMBERS| ensures IsGood(ConsoleMembers(base)[i]) {
      assert CONSOLE_MEMBERS[i] in CONSOLE_MEMBERS;
      ExpressionIsGood(CONSOLE_MEMBERS[i].0, CONSOLE_MEMBERS[i].1, CONSOLE_MEMBERS[i].2, base);
    }
    forall i | 0 <= i < |CONSOLE_TEMPLATES| ensures IsGood(ConsoleTemplates(base)[i]) {
      assert CONSOLE_TEMPLATES[i] in CONSOLE_TEMPLATES;
      ExpressionIsGood(CONSOLE_TEMPLATES[i].0, CONSOLE_TEMPLATES[i].1, CONSOLE_TEMPLATES[i].2, base);
    }
  }

  lemma ProxyRootIsText(name: Text)
    requires IsText(name)
    ensures IsText(ProxyRoot(name))
  {
    hide IsText, Ascii;
    AsciiIsText("/proxy/");
    AsciiIsText("/");
    TextConcat(Ascii("/proxy/"), name);
    TextConcat(Ascii("/proxy/") + name, Ascii("/"));
  }

  lemma HtmlHeadIsText(i: nat)
    requires i < 20
    ensures |Html.HTML_HEADS| == 20 && IsText(Html.HTML_HEADS[i]) && Html.HTML_HEADS[i] != []
  {
    Html.AttributeBytes();
    AsciiIsAccepted(Html.HTML_HEADS[i]);
  }

  lemma HtmlRulesAreGood(base: Text, name: Text)
    requires IsText(base) && IsText(name)
    ensures AllGood(HtmlRulesOf(base, name)) && |HtmlRulesOf(base, name)| >= 20
    ensures forall i :: 0 <= i < |HtmlRulesOf(base, name)| ==> HtmlRulesOf(base, name)[i].ExactRule?
  {
    hide IsText, IsGood, Ascii, ProxyRoot, Html.HTML_HEADS;
    var root := ProxyRoot(name);
    ProxyRootIsText(name);
    forall i | 0 <= i < 20 ensures IsGood(HtmlRules(base, name)[i]) {
      HtmlHeadIsText(i);
      TextConcat(Html.HTML_HEADS[i], root);
      TextConcat(Html.HTML_HEADS[i], base);
      TextConcat(Html.HTML_HEADS[i] + base, root);
      ExactIsGood(Html.HTML_HEADS[i] + root, Html.HTML_HEADS[i] + base + root);
    }
    KubekeyRuleIsGood(base);
  }

  lemma KubekeyRuleIsGood(base: Text)
    requires IsText(base)
    ensures IsGood(ExactRule(KUBEKEY_LEGACY_ROOT, base))
  {
    AsciiIsText("/57516e69-2cb0-4d48-a8a8-2833cfff87a9");
    assert |KUBEKEY_LEGACY_ROOT| == |"/57516e69-2cb0-4d48-a8a8-2833cfff87a9"|;
    ExactIsGood(KUBEKEY_LEGACY_ROOT, base);
  }

  lemma BundleRuleIsGood(base: Text)
    requires IsText(base)
    ensures IsGood(BundleRule(base))
  {
    hide IsText, Ascii;
    var source, suffix := AppendIdempotence.HOST_LITERAL, TrimStartSlashes(base) + Ascii("/");
    AsciiIsText("`//${window.location.host}/");
    AsciiIsText("/");
    TrimmedIsText(base);
    TextConcat(TrimStartSlashes(base), Ascii("/"));
    TextConcat(source, suffix);
    AppendIsGood(source, suffix);
  }

  lemma AppendIsGood(source: Text, suffix: Text)
    requires source != [] && IsText(source) && IsText(source + suffix)
    ensures IsGood(AppendRule(source, suffix))
  {
  }

  lemma QuotedRuleIsGood(quote: string, base: Text)
    requires |quote| == 1 && IsText(base)
    ensures IsGood(QuotedProxyRule(quote, base))
  {
    hide IsText, ProxyRoot;
    AsciiIsText(quote);
    AsciiIsText("ys1000");
    var q, root := Ascii(quote), ProxyRoot(Ascii("ys1000"));
    ProxyRootIsText(Ascii("ys1000"));
    TextConcat(q, root);
    TextConcat(q + root, q);
    TextConcat(q, base);
    TextConcat(q + base, root);
    TextConcat(q + base + root, q);
    ExactIsGood(q + root + q, q + base + root + q);
  }

  ghost predicate GoodLiterals(rules: seq<StageRule>) {
    && AllGood(rules) && rules != []
    && (rules[0].PrefixRule? || rules[0].ExactRule? || rules[0].AppendRule?)
  }

  /** Literal rules come first, and none but the last is without well-formed literals. */
  ghost predicate GoodRules(rules: Rules) {
    GoodLiterals(rules.literals) && (AllGood(rules.others) || (|rules.others| == 1 && rules.others[0].TransformRule?))
  }

  lemma ProfileRulesAreGood(profile: Profile, base: Text, name: Text, codec: MigMeta.Codec)
    requires IsText(base) && IsText(name)
    ensures GoodRules(ProfileRules(profile, base, name, codec))
  {
    hide IsText, IsGood, Ascii, ConsoleRules, HtmlRulesOf, BundleRule, QuotedProxyRule;
    BundleRuleIsGood(base);
    assert BundleRule(base).AppendRule? by { BundleRuleAppends(base); }
    match profile
    case ConsoleV3Profile =>
      AsciiIsText("/extensions-static/");
      AsciiIsText("/dist/v3dist/");
      TextConcat(PrependIdempotence.STATIC_ROOT, name);
      TextConcat(PrependIdempotence.STATIC_ROOT + name, Ascii("/dist/v3dist/"));
      PrependIdempotence.StaticRootSlashes();
      ConsoleRulesAreGood(base, StaticPrefixes.ConsoleSource(name));
    case FrontendIndexProfile =>
    case JsBundleProfile =>
    case Ys1000FrontendIndexProfile =>
      QuotedRuleIsGood("\"", base);
      QuotedRuleIsGood("'", base);
    case KubekeyAssetProfile => KubekeyRuleIsGood(base);
    case NamedProxyHtmlProfile => HtmlRulesAreGood(base, name);
    case Ys1000HtmlProfile => HtmlRulesAreGood(base, name);
  }

  lemma BundleRuleAppends(base: Text)
    ensures BundleRule(base).AppendRule?
  {
  }

  lemma {:induction false} GoodRulesHaveStages(rules: seq<StageRule>)
    requires forall i :: 0 <= i < |rules| ==> SpecOf(rules[i]).Ok?
    ensures SpecsOf(rules).Ok?
    decreases |rules|
  {
    hide SpecOf;
    if rules != [] {
      GoodRulesHaveStages(rules[1..]);
    }
  }

  /** Building the pipeline of a profile never fails, and the pipeline is one that rejects exactly what
      is not UTF-8. */
  lemma ProfilesBuildUtf8Chains(profile: Profile, base: Text, name: Text, codec: MigMeta.Codec)
    requires IsText(base) && IsText(name)
    ensures var rules := ProfileRules(profile, base, name, codec);
            PipelineSpecs(rules.literals, rules.others).Ok?
              && Utf8Chain(PipelineSpecs(rules.literals, rules.others).value)
  {
    hide ProfileRules, IsText, SpecOf, Spec.Utf8Literals, Spec.Valid, Spec.PreservesUtf8;
    var rules := ProfileRules(profile, base, name, codec);
    ProfileRulesAreGood(profile, base, name, codec);
    TransformHasStage(rules.others);
    GoodRulesHaveStages(rules.literals);
    GoodRulesHaveStages(rules.others);
    var first, rest := SpecsOf(rules.literals).value, SpecsOf(rules.others).value;
    var specs := first + rest;
    forall i | 0 <= i < |specs| - 1 ensures specs[i].PreservesUtf8() {
      if i < |first| {
        assert SpecOf(rules.literals[i]) == Ok(first[i]) && IsGood(rules.literals[i]);
      } else {
        assert SpecOf(rules.others[i - |first|]) == Ok(rest[i - |first|]) && IsGood(rules.others[i - |first|]);
      }
      LiteralsPreserveUtf8(specs[i]);
    }
    assert SpecOf(rules.literals[0]) == Ok(specs[0]);
  }

  lemma TransformHasStage(rules: seq<StageRule>)
    requires AllGood(rules) || (|rules| == 1 && rules[0].TransformRule?)
    ensures forall i :: 0 <= i < |rules| ==> SpecOf(rules[i]).Ok?
  {
  }

  /** The stages of a profile. */
  function ProfileSpecs(profile: Profile, base: Text, name: Text, codec: MigMeta.Codec): (specs: seq<Spec>)
    requires IsText(base) && IsText(name)
    ensures AllValid(specs) && specs != []
  {
    ProfilesBuildUtf8Chains(profile, base, name, codec);
    var rules := ProfileRules(profile, base, name, codec);
    PipelineSpecs(rules.literals, rules.others).value
  }

  /** The composed stages on the whole body, or the error that the body calls for. */
  ghost predicate IsAnswer(specs: seq<Spec>, maxBytes: nat, body: Text, r: Result<Text>) {
    && AllValid(specs) && specs != []
    && (r.Ok? ==> r.value == Compose(specs, body) && |body| <= maxBytes && WellFormed(body))
    && (NeverOverflows(specs, body) ==>
          && (r.Ok? <==> |body| <= maxBytes && WellFormed(body))
          && (r.Err? ==> (r.error == TooLarge(maxBytes) && |body| > maxBytes)
                         || (r.error == InvalidUtf8 && !WellFormed(body))))
  }

  /**
   * A response of any profile, in any chunks: when the body is well-formed UTF-8 within the limit, the
   * output is the composition of the stages on the whole body; otherwise the error names a fault it has.
   */
  method RewriteResponse(profile: Profile, base: Text, name: Text, codec: MigMeta.Codec, maxBytes: nat,
                         chunks: seq<Text>, last: Text)
    returns (r: Result<Text>)
    requires IsText(base) && IsText(name) && maxBytes <= USIZE_MAX
    ensures IsAnswer(ProfileSpecs(profile, base, name, codec), maxBytes, Flatten(chunks) + last, r)
  {
    hide ProfileRules, IsText, WellFormed, Completable, Compose, NeverOverflows, PipelineSpecs, FirstError,
      RefusedInTime;
    var rules := ProfileRules(profile, base, name, codec);
    ProfilesBuildUtf8Chains(profile, base, name, codec);
    FirstErrorExactlyWhen(maxBytes, [], chunks, last);
    WellFormedIsCompletable(Flatten(chunks) + last);
    assert [] + Flatten(chunks) + last == Flatten(chunks) + last;
    r := RewriteBody(rules.literals, rules.others, maxBytes, chunks, last);
  }

  // What the stages of some profiles do as a whole.

  lemma {:induction false} SpecsOfExactRules(rules: seq<StageRule>, specs: seq<Spec>)
    requires |rules| == |specs| && forall i :: 0 <= i < |rules| ==> SpecOf(rules[i]) == Ok(specs[i])
    ensures SpecsOf(rules) == Ok(specs)
    decreases |rules|
  {
    hide SpecOf;
    if rules != [] {
      SpecsOfExactRules(rules[1..], specs[1..]);
      assert specs == [specs[0]] + specs[1..];
    }
  }

  lemma HtmlSpecsAreStages(base: Text, name: Text)
    ensures forall h <- Html.HTML_HEADS :: h != []
    ensures SpecsOf(HtmlRules(base, name)) == Ok(Html.StagesOf(SiteOf(base, name), Html.HTML_HEADS))
  {
    hide ProxyRoot;
    Html.HtmlHeadsAreHeads();
    Html.HeadsAreNotEmpty(Html.HTML_HEADS);
    hide Html.HTML_HEADS, Html.Heads;
    var stages := Html.StagesOf(SiteOf(base, name), Html.HTML_HEADS);
    forall i | 0 <= i < 20 ensures SpecOf(HtmlRules(base, name)[i]) == Ok(stages[i]) {
      assert Html.HTML_HEADS[i] in Html.HTML_HEADS;
    }
    SpecsOfExactRules(HtmlRules(base, name), stages);
  }

  /** The stage for the legacy root, which only kubekey has. */
  function LegacyStages(base: Text, name: Text): (specs: seq<Spec>)
    ensures AllValid(specs)
  {
    LegacyRootBytes();
    if name == KUBEKEY then [LiteralStage(Replacing(KUBEKEY_LEGACY_ROOT, base))] else []
  }

  /** What that stage makes of a page. */
  function LegacyReplaced(base: Text, name: Text, page: Text): Text {
    LegacyRootBytes();
    if name == KUBEKEY
    then Rewritten(Replacing(KUBEKEY_LEGACY_ROOT, base), page) else page
  }

  lemma LegacyRootBytes()
    ensures |KUBEKEY_LEGACY_ROOT| == 37 && ExactIdempotence.OnlyBeginsWith(KUBEKEY_LEGACY_ROOT, SLASH)
    ensures KUBEKEY_LEGACY_ROOT[1] == 0x35
  {
    var s := "/57516e69-2cb0-4d48-a8a8-2833cfff87a9";
    assert |s| == 37 && s[0] == '/' && s[1] == '5';
    assert forall k :: 0 < k < 37 ==> s[k] != '/';
    assert AsciiByte('5') == 0x35;
    hide AsciiByte;
    forall k | 0 <= k < 37 ensures KUBEKEY_LEGACY_ROOT[k] == SLASH <==> k == 0 {
      AsciiByteIsSlash(s[k]);
    }
  }

  lemma ProfileSpecsAre(profile: Profile, base: Text, name: Text, codec: MigMeta.Codec, first: seq<Spec>,
                        rest: seq<Spec>)
    requires IsText(base) && IsText(name) && first != []
    requires var rules := ProfileRules(profile, base, name, codec);
             SpecsOf(rules.literals) == Ok(first) && SpecsOf(rules.others) == Ok(rest)
    ensures ProfileSpecs(profile, base, name, codec) == first + rest
  {
    hide ProfileRules, SpecsOf, IsText;
  }

  lemma HtmlSpecs(base: Text, name: Text, codec: MigMeta.Codec)
    requires IsText(base) && IsText(name)
    ensures forall h <- Html.HTML_HEADS :: h != []
    ensures var specs := Html.StagesOf(SiteOf(base, name), Html.HTML_HEADS) + LegacyStages(base, name);
            && ProfileSpecs(NamedProxyHtmlProfile, base, name, codec) == specs
            && ProfileSpecs(Ys1000HtmlProfile, base, name, codec) ==
               specs + [BufferedStage(MigMetaTransform(codec, base, name))]
  {
    HtmlRulesOfProfiles(base, name, codec);
    HtmlLiteralSpecs(base, name);
    hide *;
    var transform := MigMetaTransform(codec, base, name);
    var literals := Html.StagesOf(SiteOf(base, name), Html.HTML_HEADS) + LegacyStages(base, name);
    TransformSpec(transform);
    SpecsOfExactRules([TransformRule(transform)], [BufferedStage(transform)]);
    SpecsOfExactRules([], []);
    assert literals + [] == literals;
    ProfileSpecsAre(NamedProxyHtmlProfile, base, name, codec, literals, []);
    ProfileSpecsAre(Ys1000HtmlProfile, base, name, codec, literals, [BufferedStage(transform)]);
  }

  lemma HtmlRulesOfProfiles(base: Text, name: Text, codec: MigMeta.Codec)
    ensures ProfileRules(NamedProxyHtmlProfile, base, name, codec) == Rules(HtmlRulesOf(base, name), [])
    ensures ProfileRules(Ys1000HtmlProfile, base, name, codec) ==
            Rules(HtmlRulesOf(base, name), [TransformRule(MigMetaTransform(codec, base, name))])
  {
    hide HtmlRulesOf, MigMetaTransform, ConsoleRules, QuotedProxyRule, BundleRule;
  }

  lemma HtmlLiteralSpecs(base: Text, name: Text)
    ensures forall h <- Html.HTML_HEADS :: h != []
    ensures var stages := Html.StagesOf(SiteOf(base, name), Html.HTML_HEADS);
            SpecsOf(HtmlRulesOf(base, name)) == Ok(stages + LegacyStages(base, name)) && stages != []
  {
    HtmlStagesExist(base, name);
    hide Html.HTML_HEADS, SpecOf, SpecsOf, HtmlRules, KUBEKEY_LEGACY_ROOT, Html.StagesOf;
    HtmlSpecsAreStages(base, name);
    LegacySpecs(base, name);
    var stages := Html.StagesOf(SiteOf(base, name), Html.HTML_HEADS);
    SpecsOfExactRules(HtmlRulesOf(base, name), stages + LegacyStages(base, name));
  }

  lemma LegacySpecs(base: Text, name: Text)
    ensures name == KUBEKEY ==>
              && SpecOf(ExactRule(KUBEKEY_LEGACY_ROOT, base)) == Ok(LegacyStages(base, name)[0])
              && |LegacyStages(base, name)| == 1
  {
    LegacyRootBytes();
  }

  lemma TransformSpec(transform: Text -> Text)
    ensures SpecOf(TransformRule(transform)) == Ok(BufferedStage(transform))
  {
  }

  lemma HtmlStagesExist(base: Text, name: Text)
    ensures |Html.HTML_HEADS| == 20
  {
  }

  /** A named-proxy page is one pass that inserts the base path; the ys1000 page is then spliced. */
  lemma HtmlResponseIsOnePass(base: Text, name: Text, codec: MigMeta.Codec, body: Text)
    requires IsText(base) && IsText(name) && SiteOf(base, name).IsPlain()
    ensures var once := LegacyReplaced(base, name, Html.InsertAll(SiteOf(base, name), Html.HTML_HEADS, body));
            && Compose(ProfileSpecs(NamedProxyHtmlProfile, base, name, codec), body) == once
            && Compose(ProfileSpecs(Ys1000HtmlProfile, base, name, codec), body) ==
               MigMetaTransform(codec, base, name)(once)
  {
    hide IsText, Html.HTML_HEADS, Html.InsertAll, Compose, MigMetaTransform, ProfileSpecs, KUBEKEY_LEGACY_ROOT;
    var site, transform := SiteOf(base, name), MigMetaTransform(codec, base, name);
    HtmlSpecs(base, name, codec);
    Html.HtmlHeadsAreHeads();
    Html.HtmlStagesAreOnePass(site, Html.HTML_HEADS, body);
    var stages, legacy := Html.StagesOf(site, Html.HTML_HEADS), LegacyStages(base, name);
    ComposeConcat(stages, legacy, body);
    LegacyStageReplaces(base, name, Compose(stages, body));
    ComposeConcat(stages + legacy, [BufferedStage(transform)], body);
    ComposeOne(BufferedStage(transform), Compose(stages + legacy, body));
  }

  lemma LegacyStageReplaces(base: Text, name: Text, page: Text)
    ensures Compose(LegacyStages(base, name), page) == LegacyReplaced(base, name, page)
  {
    hide Substitute, KUBEKEY_LEGACY_ROOT;
    LegacyRootBytes();
    if name == KUBEKEY {
      ComposeOne(LegacyStages(base, name)[0], page);
    }
  }

  lemma ComposeOne(spec: Spec, body: Text)
    requires spec.Valid()
    ensures Compose([spec], body) == spec.Run(body)
  {
    assert [spec][..0] == [];
  }

  /** The stage of the bundle profiles. */
  function BundleStage(base: Text): (spec: Spec)
    ensures spec.Valid()
  {
    LiteralStage(Appending(AppendIdempotence.HOST_LITERAL, TrimStartSlashes(base) + Ascii("/")))
  }

  lemma BundleSpecs(base: Text, name: Text, codec: MigMeta.Codec)
    requires IsText(base) && IsText(name)
    ensures SpecOf(BundleRule(base)) == Ok(BundleStage(base))
    ensures ProfileSpecs(JsBundleProfile, base, name, codec) == [BundleStage(base)]
    ensures ProfileSpecs(FrontendIndexProfile, base, name, codec) == [BundleStage(base)]
  {
    hide IsText, ProfileSpecs;
    SpecsOfExactRules([BundleRule(base)], [BundleStage(base)]);
    assert SpecsOf([]) == Ok([]) && [BundleStage(base)] + [] == [BundleStage(base)];
    ProfileSpecsAre(JsBundleProfile, base, name, codec, [BundleStage(base)], []);
    ProfileSpecsAre(FrontendIndexProfile, base, name, codec, [BundleStage(base)], []);
  }

  /** Inserting after the window host is idempotent for every base path without a backtick. */
  lemma BundleStageIsIdempotent(base: Text, body: Text)
    requires BACKTICK !in base
    ensures BundleStage(base).Run(BundleStage(base).Run(body)) == BundleStage(base).Run(body)
  {
    var suffix := TrimStartSlashes(base) + Ascii("/");
    var rule := Appending(AppendIdempotence.HOST_LITERAL, suffix);
    TrimmedHoldsLess(base);
    assert AsciiByte('/') == SLASH;
    AppendIdempotence.HostLiteralIsIdempotent(suffix);
    assert Rewritten(rule, Rewritten(rule, body)) ==
           Rewritten(rule, body);
  }

  lemma {:induction false} TrimmedHoldsLess(s: Text)
    ensures forall b :: b in TrimStartSlashes(s) ==> b in s
    decreases |s|
  {
    if s != [] && s[0] == SLASH {
      TrimmedHoldsLess(s[1..]);
    }
  }
}
