/** What an HTML page and a kubekey asset become: attribute by attribute, and root by root. */
module PageResponses {
  import opened Bytes
  import opened LiteralSpec
  import opened Stages
  import opened Policy
  import opened Profiles
  import opened BasePath
  import opened Occurrences
  import opened ProfileIdempotence
  import Html
  import opened MigMeta

  predicate IsBoundary(c: char) {
    c == ' ' || c == '\t' || c == '\n' || c == '\r' || c == 0xC as char
  }

  predicate IsAttribute(attribute: string) {
    attribute == "href=\"" || attribute == "href='" || attribute == "src=\"" || attribute == "src='"
  }

  /** Whitespace is the space, the tab, the line and form feeds, and the carriage return. */
  lemma WhitespaceIs(c: char)
    requires c < 128 as char
    ensures IsWhitespace(AsciiByte(c)) <==> IsBoundary(c)
  {
    AsciiByteIsCode(c);
    WhitespaceCodes();
  }

  lemma WhitespaceCodes()
    ensures AsciiByte(' ') == 0x20 && AsciiByte('\t') == 0x09 && AsciiByte('\n') == 0x0A
    ensures AsciiByte('\r') == 0x0D && AsciiByte(0xC as char) == 0x0C
  {
  }

  lemma BoundaryIndex(c: char) returns (k: nat)
    requires IsBoundary(c)
    ensures k < 5 && |Html.BOUNDARIES| == 5 && Html.BOUNDARIES[k] == AsciiByte(c)
  {
    WhitespaceCodes();
    k := if c == ' ' then 0 else if c == '\t' then 1 else if c == '\r' then 2 else if c == '\n' then 3 else 4;
  }

  lemma AttributeIndex(attribute: string) returns (k: nat)
    requires IsAttribute(attribute)
    ensures k < 4 && |Html.ATTRIBUTES| == 4 && Html.ATTRIBUTES[k] == Ascii(attribute)
  {
    k := if attribute == "href=\"" then 0 else if attribute == "href='" then 1 else if attribute == "src=\"" then 2
      else 3;
  }

  lemma HeadIsListed(c: char, attribute: string)
    requires IsBoundary(c) && IsAttribute(attribute)
    ensures [AsciiByte(c)] + Ascii(attribute) in Html.HTML_HEADS
  {
    hide Ascii, Html.HTML_HEADS, Html.BOUNDARIES, Html.ATTRIBUTES, IsBoundary, IsAttribute;
    var i := BoundaryIndex(c);
    var j := AttributeIndex(attribute);
    Html.HeadParts(4 * i + j);
    assert (4 * i + j) / 4 == i && (4 * i + j) % 4 == j;
    assert Html.HTML_HEADS[4 * i + j] in Html.HTML_HEADS;
  }

  lemma SiteIsPassed(site: Html.Site, h: Text, before: Text, after: Text)
    requires site.IsPlain() && h in Html.HTML_HEADS && h != [] && IsWhitespace(h[0])
    ensures Html.InsertAll(site, Html.HTML_HEADS, before + (h + site.root) + after) ==
            Html.InsertAll(site, Html.HTML_HEADS, before) + (h + site.base + site.root)
            + Html.InsertAll(site, Html.HTML_HEADS, after)
  {
    Html.HtmlHeadsAreHeads();
    hide Html.HTML_HEADS, Html.InsertAll, Html.Heads, Html.Plain, Html.Leading;
    var heads, rest := Html.HTML_HEADS, (h + site.root) + after;
    Reassociate(before, h + site.root, after);
    assert rest[0] == h[0];
    Html.InsertAllSplits(site, heads, before, rest);
    assert h + site.root <= rest && rest[|h + site.root|..] == after;
    Html.LeadingIsAny(site, heads, rest, h);
    Html.InsertAllUnfolds(site, heads, rest);
    Reassociate(Html.InsertAll(site, heads, before), h + site.base + site.root, Html.InsertAll(site, heads, after));
  }

  /** What the named proxy makes of a page. */
  function Page(base: Text, name: Text, codec: MigMeta.Codec, page: Text): Text
    requires IsText(base) && IsText(name)
  {
    Compose(ProfileSpecs(NamedProxyHtmlProfile, base, name, codec), page)
  }

  lemma PageIs(base: Text, name: Text, codec: MigMeta.Codec, page: Text)
    requires IsBasePath(base) && IsText(name) && Html.Plain(ProxyRoot(name)) && name != KUBEKEY
    ensures IsText(base) && SiteOf(base, name).IsPlain()
    ensures Page(base, name, codec, page) == Html.InsertAll(SiteOf(base, name), Html.HTML_HEADS, page)
  {
    hide IsBasePath, IsText, ProfileSpecs, Compose, Html.HTML_HEADS, Html.Plain, ProxyRoot, Html.InsertAll, KUBEKEY;
    BasePathIsText(base);
    HtmlResponseIsOnePass(base, name, codec, page);
    NoLegacyRoot(base, name, Html.InsertAll(SiteOf(base, name), Html.HTML_HEADS, page));
  }

  lemma NoLegacyRoot(base: Text, name: Text, page: Text)
    requires name != KUBEKEY
    ensures LegacyReplaced(base, name, page) == page
  {
  }

  lemma RootIs(base: Text, name: Text)
    ensures SiteOf(base, name).base == base && SiteOf(base, name).root == Ascii("/proxy/") + name + Ascii("/")
    ensures ProxyRoot(name) == Ascii("/proxy/") + name + Ascii("/")
  {
  }

  /** Behind whitespace, an attribute that points to the proxy points below the base path instead, and the page
      on either side of it is rewritten on its own. */
  lemma AttributeIsPrefixed(c: char, attribute: string, base: Text, name: Text, codec: MigMeta.Codec,
                            before: Text, after: Text)
    requires IsBoundary(c) && IsAttribute(attribute) && IsBasePath(base) && IsText(name)
    requires Html.Plain(Ascii("/proxy/") + name + Ascii("/")) && name != Ascii("kubekey")
    ensures IsText(base)
    ensures var head, root := [AsciiByte(c)] + Ascii(attribute), Ascii("/proxy/") + name + Ascii("/");
            Page(base, name, codec, before + (head + root) + after) ==
            Page(base, name, codec, before) + (head + base + root) + Page(base, name, codec, after)
  {
    WhitespaceIs(c);
    assert KUBEKEY == Ascii("kubekey");
    hide *;
    var head, root := [AsciiByte(c)] + Ascii(attribute), Ascii("/proxy/") + name + Ascii("/");
    HeadIsListed(c, attribute);
    RootIs(base, name);
    PageIs(base, name, codec, before);
    PageIs(base, name, codec, after);
    PageIs(base, name, codec, before + (head + root) + after);
    SiteIsPassed(SiteOf(base, name), head, before, after);
  }

  /** Every legacy root in a kubekey asset becomes the base path, and nothing else changes. */
  lemma LegacyRootsBecomeBasePaths(base: Text, name: Text, codec: MigMeta.Codec, front: Text, pieces: seq<Text>)
    requires IsText(base) && IsText(name)
    requires HoldNone(Ascii("/57516e69-2cb0-4d48-a8a8-2833cfff87a9"), front, pieces)
    ensures var root := Ascii("/57516e69-2cb0-4d48-a8a8-2833cfff87a9");
            Compose(ProfileSpecs(KubekeyAssetProfile, base, name, codec), front + Joined(root, pieces)) ==
            front + Joined(base, pieces)
  {
    assert KUBEKEY_LEGACY_ROOT == Ascii("/57516e69-2cb0-4d48-a8a8-2833cfff87a9");
    LegacyRootBytes();
    LegacyStageRuns(base, front + Joined(KUBEKEY_LEGACY_ROOT, pieces));
    hide *;
    KubekeySpecs(base, name, codec);
    ReplacedBetweenPieces(KUBEKEY_LEGACY_ROOT, SLASH, base, front, pieces);
    ComposeOne(LiteralStage(Replacing(KUBEKEY_LEGACY_ROOT, base)), front + Joined(KUBEKEY_LEGACY_ROOT, pieces));
  }

  lemma LegacyStageRuns(base: Text, body: Text)
    ensures KUBEKEY_LEGACY_ROOT != []
    ensures LiteralStage(Replacing(KUBEKEY_LEGACY_ROOT, base)).Valid()
    ensures LiteralStage(Replacing(KUBEKEY_LEGACY_ROOT, base)).Run(body) ==
            Rewritten(Replacing(KUBEKEY_LEGACY_ROOT, base), body)
  {
    LegacyRootBytes();
    hide KUBEKEY_LEGACY_ROOT, Substitute;
  }

  // Metadata.

  predicate AllWhitespace(s: Text) {
    forall i :: 0 <= i < |s| ==> IsWhitespace(s[i])
  }

  lemma {:induction false} SkipsTo(s: Text, position: nat, p: nat)
    requires position <= p < |s| && AllWhitespace(s[position..p]) && !IsWhitespace(s[p])
    ensures SkipWhitespace(s, position) == p
    decreases p - position
  {
    hide IsWhitespace;
    if position < p {
      assert s[position..p][0] == s[position];
      assert s[position + 1..p] == s[position..p][1..];
      SkipsTo(s, position + 1, p);
    }
  }

  lemma {:induction false} FindsAt(s: Text, b: Byte, from: nat, end: nat)
    requires from <= end < |s| && s[end] == b && b !in s[from..end]
    ensures IndexOf(s, b, from) == Some(end)
  {
    hide IndexOf;
    var i := IndexOf(s, b, from);
    assert i.Some?;
    assert forall k :: from <= k < end ==> s[k] == s[from..end][k - from];
  }

  lemma FindsFirst(s: Text, pattern: Text, m: nat)
    requires At(s, m, pattern) && forall j: nat :: j < m ==> !At(s, j, pattern)
    ensures FirstFrom(s, pattern, 0) == Some(m)
  {
    hide At, FirstFrom;
    var i := FirstFrom(s, pattern, 0);
    assert i.Some?;
  }

  /** What stands behind the name: an equals sign and a string, each behind whitespace. */
  function Assigned(gap: Text, gap': Text, q: Byte, encoded: Text): Text {
    gap + Ascii("=") + gap' + [q] + encoded + [q]
  }

  lemma EqualsSign()
    ensures Ascii("=") == [EQUALS] && SINGLE_QUOTE == AsciiByte('\'') && DOUBLE_QUOTE == AsciiByte('"')
  {
    assert AsciiByte('=') == EQUALS;
  }

  /** The parts of what stands in front of a payload. */
  lemma HeadParts(text: Text, k: nat, gap: Text, gap': Text, q: Byte)
    requires At(text, k, gap + Ascii("=") + gap' + [q])
    ensures var a := k + |gap|;
            var b := a + 1 + |gap'|;
            && b < |text| && text[k..a] == gap && text[a] == EQUALS && text[a + 1..b] == gap' && text[b] == q
  {
    EqualsSign();
    hide At, Ascii;
    var a := k + |gap|;
    var b := a + 1 + |gap'|;
    AtConcat(text, k, gap + [EQUALS] + gap', [q]);
    AtConcat(text, k, gap + [EQUALS], gap');
    AtConcat(text, k, gap, [EQUALS]);
    SliceOfAt(text, k, gap);
    SliceOfAt(text, a + 1, gap');
    AtHasByte(text, a, [EQUALS], a);
    AtHasByte(text, b, [q], b);
  }

  lemma AssignedParts(text: Text, k: nat, gap: Text, gap': Text, q: Byte, encoded: Text)
    requires At(text, k, Assigned(gap, gap', q, encoded))
    ensures var a := k + |gap|;
            var b := a + 1 + |gap'|;
            var c := b + 1 + |encoded|;
            && c < |text| && text[k..a] == gap && text[a] == EQUALS && text[a + 1..b] == gap' && text[b] == q
            && text[b + 1..c] == encoded && text[c] == q && c + 1 == k + |Assigned(gap, gap', q, encoded)|
  {
    EqualsSign();
    hide At, Ascii;
    var head := gap + Ascii("=") + gap' + [q];
    AtConcat(text, k, head + encoded, [q]);
    AtConcat(text, k, head, encoded);
    HeadParts(text, k, gap, gap', q);
    SliceOfAt(text, k + |head|, encoded);
    AtHasByte(text, k + |head + encoded|, [q], k + |head + encoded|);
  }

  /** Behind whitespace, an equals sign and whitespace, a string is parsed. */
  lemma StringIsParsed(text: Text, k: nat, gap: Text, gap': Text, q: Byte)
    requires AllWhitespace(gap) && AllWhitespace(gap') && IsQuote(q) && At(text, k, gap + Ascii("=") + gap' + [q])
    ensures var b := k + |gap| + 1 + |gap'|;
            && k <= |text| && b < |text| && text[b] == q && ParseAssignment(text, k) == ParseString(text, b)
  {
    hide At, SkipWhitespace, ParseString, Ascii, IsWhitespace, AllWhitespace, IsQuote;
    HeadParts(text, k, gap, gap', q);
    var a := k + |gap|;
    var b := a + 1 + |gap'|;
    QuotesAreNoWhitespace(q);
    SkipsTo(text, k, a);
    SkipsTo(text, a + 1, b);
  }

  lemma QuotesAreNoWhitespace(q: Byte)
    ensures IsQuote(q) ==> !IsWhitespace(q)
    ensures !IsWhitespace(EQUALS)
  {
  }

  lemma AssignmentIsParsed(text: Text, k: nat, gap: Text, gap': Text, q: Byte, encoded: Text)
    requires AllWhitespace(gap) && AllWhitespace(gap') && IsQuote(q) && q !in encoded
    requires At(text, k, Assigned(gap, gap', q, encoded))
    ensures k <= |text|
    ensures var start := k + |gap| + 1 + |gap'| + 1;
            ParseAssignment(text, k) == Closed(start, start + |encoded|)
  {
    hide At, Ascii, ParseAssignment, AllWhitespace, IsQuote;
    AssignedParts(text, k, gap, gap', q, encoded);
    AtConcat(text, k, gap + Ascii("=") + gap' + [q] + encoded, [q]);
    AtConcat(text, k, gap + Ascii("=") + gap' + [q], encoded);
    StringIsParsed(text, k, gap, gap', q);
    var b := k + |gap| + 1 + |gap'|;
    FindsAt(text, q, b + 1, b + 1 + |encoded|);
    ParsedString(text, b);
  }

  lemma ParsedString(text: Text, b: nat)
    requires b < |text| && IsQuote(text[b])
    ensures ParseString(text, b) == match IndexOf(text, text[b], b + 1)
                                    case None => Unclosed
                                    case Some(end) => Closed(b + 1, end)
  {
    hide IndexOf, IsQuote;
  }

  const META_NAME: Text := Ascii("window._mig_meta")

  lemma BothBehind(before: Text, a: Text, b: Text, after: Text)
    ensures var text := before + (a + b) + after; At(text, |before|, a) && At(text, |before| + |a|, b)
  {
    var text := before + (a + b) + after;
    assert text[|before|..|before| + |a|] == a;
    assert text[|before| + |a|..|before| + |a| + |b|] == b;
  }

  lemma PayloadIsNext(text: Text, m: nat, start: nat, end: nat)
    requires FirstFrom(text, META_NAME, 0) == Some(m) && m + |META_NAME| <= |text|
    requires ParseAssignment(text, m + |META_NAME|) == Closed(start, end)
    ensures NextStep(text) == Payload(start, end)
  {
    assert ASSIGNMENT == META_NAME;
    hide ParseAssignment, FirstFrom, META_NAME, ASSIGNMENT;
  }

  /** The assignment is the next thing that matters. */
  lemma AssignmentIsNext(before: Text, after: Text, gap: Text, gap': Text, q: Byte, encoded: Text)
    requires AllWhitespace(gap) && AllWhitespace(gap') && IsQuote(q) && q !in encoded
    requires var v := META_NAME + Assigned(gap, gap', q, encoded);
             forall j: nat :: j < |before| ==> !At(before + v + after, j, META_NAME)
    ensures var text := before + (META_NAME + Assigned(gap, gap', q, encoded)) + after;
            var start := |before| + |META_NAME| + |gap| + 1 + |gap'| + 1;
            NextStep(text) == Payload(start, start + |encoded|)
  {
    hide *;
    var text := before + (META_NAME + Assigned(gap, gap', q, encoded)) + after;
    var k := |before| + |META_NAME|;
    BothBehind(before, META_NAME, Assigned(gap, gap', q, encoded), after);
    FindsFirst(text, META_NAME, |before|);
    AssignmentIsParsed(text, k, gap, gap', q, encoded);
    PayloadIsNext(text, |before|, k + |gap| + 1 + |gap'| + 1, k + |gap| + 1 + |gap'| + 1 + |encoded|);
  }

  lemma AssignedAround(gap: Text, gap': Text, q: Byte, encoded: Text, before: Text, after: Text)
    ensures var v := META_NAME + Assigned(gap, gap', q, encoded);
            var text, start := before + v + after, |before| + |META_NAME| + |gap| + 1 + |gap'| + 1;
            var end := start + |encoded|;
            && end < |text| && text[start..end] == encoded && text[end] == q && text[end + 1..] == after
            && text[..end + 1] == before + v
            && forall r: Text :: text[..start] + r + [q] == before + (META_NAME + Assigned(gap, gap', q, r))
  {
    hide META_NAME, Ascii;
    EqualsSign();
    var front := gap + Ascii("=") + gap' + [q];
    forall r: Text ensures META_NAME + Assigned(gap, gap', q, r) == META_NAME + front + r + [q] {
      Reassociate(META_NAME, front, r);
      Reassociate(META_NAME, front + r, [q]);
    }
    hide Assigned;
    var text, start := before + (META_NAME + Assigned(gap, gap', q, encoded)) + after, |before + (META_NAME + front)|;
    assert text == before + (META_NAME + front) + encoded + [q] + after;
    assert text[..start] == before + (META_NAME + front);
    forall r: Text ensures text[..start] + r + [q] == before + (META_NAME + Assigned(gap, gap', q, r)) {
      assert before + (META_NAME + front) + r + [q] == before + (META_NAME + front + r + [q]);
    }
  }

  /** Whatever whitespace there is around the equals sign, and whichever quotes, the string that is assigned
      to the metadata is rewritten, and the page behind it on its own. */
  lemma AssignmentIsRewritten(payload: Text -> Option<Text>, before: Text, gap: Text, gap': Text, q: Byte,
                              encoded: Text, after: Text)
    requires AllWhitespace(gap) && AllWhitespace(gap') && IsQuote(q) && q !in encoded
    requires var v := META_NAME + Assigned(gap, gap', q, encoded);
             forall j: nat :: j < |before| ==> !At(before + v + after, j, META_NAME)
    ensures var r := match payload(encoded) case None => encoded case Some(rewritten) => rewritten;
            Splice(payload, before + (META_NAME + Assigned(gap, gap', q, encoded)) + after) ==
            before + (META_NAME + Assigned(gap, gap', q, r)) + Splice(payload, after)
  {
    hide *;
    var v := META_NAME + Assigned(gap, gap', q, encoded);
    var text, start := before + v + after, |before| + |META_NAME| + |gap| + 1 + |gap'| + 1;
    AssignmentIsNext(before, after, gap, gap', q, encoded);
    AssignedAround(gap, gap', q, encoded, before, after);
    PayloadUnfolds(payload, text, start, start + |encoded|);
  }

  /** The beginning of an assignment of a string. */
  predicate BeginsAssignment(rest: Text, gap: Text, gap': Text, c: char) {
    && AllWhitespace(gap) && AllWhitespace(gap') && (c == '"' || c == '\'')
    && gap + Ascii("=") + gap' + [AsciiByte(c)] <= rest
  }

  lemma SkippedIsWhitespace(s: Text, position: nat)
    requires position <= |s|
    ensures var p := SkipWhitespace(s, position); AllWhitespace(s[position..p])
  {
    hide IsWhitespace;
    var p := SkipWhitespace(s, position);
    forall i | 0 <= i < p - position ensures IsWhitespace(s[position..p][i]) {
      assert s[position..p][i] == s[position + i];
    }
  }

  lemma StringIsAssigned(text: Text, k: nat)
    requires k <= |text| && !ParseAssignment(text, k).NotOne?
    ensures var a := SkipWhitespace(text, k);
            && a < |text| && text[a] == EQUALS
            && SkipWhitespace(text, a + 1) < |text| && IsQuote(text[SkipWhitespace(text, a + 1)])
  {
    hide SkipWhitespace, IndexOf, IsQuote;
  }

  lemma RestBegins(text: Text, k: nat, a: nat, b: nat)
    requires k <= a < |text| && a + 1 <= b < |text|
    ensures text[k..a] + [text[a]] + text[a + 1..b] + [text[b]] <= text[k..]
  {
    assert text[k..] == text[k..a] + [text[a]] + text[a + 1..b] + [text[b]] + text[b + 1..];
  }

  /** What is parsed as a string begins like one. */
  lemma ParsedBeginsAssignment(text: Text, k: nat) returns (gap: Text, gap': Text, c: char)
    requires k <= |text| && !ParseAssignment(text, k).NotOne?
    ensures BeginsAssignment(text[k..], gap, gap', c)
  {
    EqualsSign();
    StringIsAssigned(text, k);
    hide SkipWhitespace, AllWhitespace, Ascii, AsciiByte, ParseAssignment;
    var a := SkipWhitespace(text, k);
    var b := SkipWhitespace(text, a + 1);
    SkippedIsWhitespace(text, k);
    SkippedIsWhitespace(text, a + 1);
    gap, gap', c := text[k..a], text[a + 1..b], if text[b] == DOUBLE_QUOTE then '"' else '\'';
    RestBegins(text, k, a, b);
  }

  lemma NameBehind(before: Text, rest: Text)
    ensures var text, k := before + META_NAME + rest, |before| + |META_NAME|;
            k <= |text| && text[k..] == rest && text[..k] == before + META_NAME && At(text, |before|, META_NAME)
  {
    hide META_NAME;
    var text, k := before + META_NAME + rest, |before| + |META_NAME|;
    assert text[|before|..k] == META_NAME;
  }

  lemma StepBehindName(text: Text, m: nat)
    requires m + |META_NAME| <= |text| && FirstFrom(text, META_NAME, 0) == Some(m)
    ensures var k := m + |META_NAME|;
            && (ParseAssignment(text, k).NotOne? ==> NextStep(text) == SkipTo(k))
            && (ParseAssignment(text, k).Unclosed? ==> NextStep(text) == Done)
  {
    assert ASSIGNMENT == META_NAME;
    hide ParseAssignment, FirstFrom, META_NAME, ASSIGNMENT;
  }

  lemma NameIsNext(before: Text, rest: Text)
    requires forall j: nat :: j < |before| ==> !At(before + META_NAME + rest, j, META_NAME)
    ensures var text, k := before + META_NAME + rest, |before| + |META_NAME|;
            && k <= |text| && text[k..] == rest && text[..k] == before + META_NAME
            && (ParseAssignment(text, k).NotOne? ==> NextStep(text) == SkipTo(k))
            && (ParseAssignment(text, k).Unclosed? ==> NextStep(text) == Done)
  {
    hide *;
    var text := before + META_NAME + rest;
    NameBehind(before, rest);
    FindsFirst(text, META_NAME, |before|);
    StepBehindName(text, |before|);
  }

  /** Without the name nothing is changed. */
  lemma PageWithoutNameIsKept(payload: Text -> Option<Text>, page: Text)
    requires !Occurs(META_NAME, page)
    ensures Splice(payload, page) == page
  {
    assert ASSIGNMENT == META_NAME;
    hide At, META_NAME, ASSIGNMENT, FirstFrom, Occurs, Splice;
    if FirstFrom(page, META_NAME, 0).Some? {
      OccursAt(page, FirstFrom(page, META_NAME, 0).value, META_NAME);
    }
    DoneUnfolds(payload, page);
  }

  /** The name without an assignment of a string behind it is passed over. */
  lemma OtherUseIsPassed(payload: Text -> Option<Text>, before: Text, rest: Text)
    requires forall j: nat :: j < |before| ==> !At(before + META_NAME + rest, j, META_NAME)
    requires forall gap, gap', c :: !BeginsAssignment(rest, gap, gap', c)
    ensures Splice(payload, before + META_NAME + rest) == before + META_NAME + Splice(payload, rest)
  {
    hide *;
    var text, k := before + META_NAME + rest, |before| + |META_NAME|;
    NameIsNext(before, rest);
    if !ParseAssignment(text, k).NotOne? {
      var gap, gap', c := ParsedBeginsAssignment(text, k);
    }
    SkipUnfolds(payload, text, k);
  }

  /** With a string that is not closed, rewriting ends. */
  lemma UnclosedStringIsTheEnd(payload: Text -> Option<Text>, before: Text, gap: Text, gap': Text, c: char, rest: Text)
    requires AllWhitespace(gap) && AllWhitespace(gap') && (c == '"' || c == '\'') && AsciiByte(c) !in rest
    requires var text := before + META_NAME + (gap + Ascii("=") + gap' + [AsciiByte(c)] + rest);
             forall j: nat :: j < |before| ==> !At(text, j, META_NAME)
    ensures var text := before + META_NAME + (gap + Ascii("=") + gap' + [AsciiByte(c)] + rest);
            Splice(payload, text) == text
  {
    UnclosedIsParsed(before, gap, gap', c, rest);
    hide *;
    NameIsNext(before, gap + Ascii("=") + gap' + [AsciiByte(c)] + rest);
    DoneUnfolds(payload, before + META_NAME + (gap + Ascii("=") + gap' + [AsciiByte(c)] + rest));
  }

  lemma HeadBehind(front: Text, head: Text, rest: Text)
    ensures var text := front + (head + rest);
            |front + head| <= |text| && At(text, |front|, head) && text[|front + head|..] == rest
  {
    var text := front + (head + rest);
    assert text[|front|..|front + head|] == head;
  }

  lemma UnclosedIsParsed(before: Text, gap: Text, gap': Text, c: char, rest: Text)
    requires AllWhitespace(gap) && AllWhitespace(gap') && (c == '"' || c == '\'') && AsciiByte(c) !in rest
    ensures var text, k := before + META_NAME + (gap + Ascii("=") + gap' + [AsciiByte(c)] + rest),
              |before| + |META_NAME|;
            k <= |text| && ParseAssignment(text, k) == Unclosed
  {
    EqualsSign();
    hide META_NAME, Ascii, AsciiByte, AllWhitespace, ParseAssignment, At;
    var text, k := before + META_NAME + (gap + Ascii("=") + gap' + [AsciiByte(c)] + rest), |before| + |META_NAME|;
    HeadBehind(before + META_NAME, gap + Ascii("=") + gap' + [AsciiByte(c)], rest);
    StringIsParsed(text, k, gap, gap', AsciiByte(c));
    var b := k + |gap| + 1 + |gap'|;
    NotFoundIn(text, AsciiByte(c), b + 1);
    ParsedString(text, b);
  }

  lemma NotFoundIn(s: Text, b: Byte, from: nat)
    requires from <= |s| && b !in s[from..]
    ensures IndexOf(s, b, from) == None
  {
    hide IndexOf;
    assert forall k :: from <= k < |s| ==> s[k] == s[from..][k - from];
  }

  /** The payload is an object whose member `i`, the first of its name, is the legacy base URI. */
  ghost predicate HasLegacyUri(codec: Codec, encoded: Text, members: seq<(Text, Json)>, i: nat) {
    && codec.decode64(encoded).Some? && codec.parse(codec.decode64(encoded).value) == Some(JsonObject(members))
    && i < |members| && members[i] == (Ascii("baseURI"), JsonString(Ascii("/proxy/ys1000")))
    && forall j :: 0 <= j < i ==> members[j].0 != Ascii("baseURI")
  }

  /** Printed again with the given base URI, and everything else as it was. */
  function Repointed(codec: Codec, members: seq<(Text, Json)>, i: nat, uri: Text): Text
    requires i < |members|
  {
    codec.encode64(codec.print_(JsonObject(members[i := (Ascii("baseURI"), JsonString(uri))])))
  }

  lemma FirstOfName(members: seq<(Text, Json)>, name: Text, i: nat)
    requires i < |members| && members[i].0 == name && forall j :: 0 <= j < i ==> members[j].0 != name
    ensures IndexOfMember(members, name) == Some(i)
  {
    hide IndexOfMember;
    var k := IndexOfMember(members, name);
    assert k.Some?;
  }

  lemma PayloadIsRepointed(codec: Codec, uri: Text, encoded: Text, members: seq<(Text, Json)>, i: nat)
    requires HasLegacyUri(codec, encoded, members, i)
    ensures RewritePayload(codec, uri, encoded) == Some(Repointed(codec, members, i, uri))
  {
    assert BASE_URI == Ascii("baseURI") && LEGACY_BASE_URI == Ascii("/proxy/ys1000");
    hide Ascii, BASE_URI, LEGACY_BASE_URI, IndexOfMember;
    FirstOfName(members, BASE_URI, i);
  }

  lemma RewrittenHasLegacyUri(codec: Codec, uri: Text, encoded: Text) returns (members: seq<(Text, Json)>, i: nat)
    requires RewritePayload(codec, uri, encoded).Some?
    ensures HasLegacyUri(codec, encoded, members, i)
  {
    assert BASE_URI == Ascii("baseURI") && LEGACY_BASE_URI == Ascii("/proxy/ys1000");
    hide Ascii, BASE_URI, LEGACY_BASE_URI, IndexOfMember, WithBaseUri;
    members := Metadata(codec, encoded).value.members;
    i := IndexOfMember(members, BASE_URI).value;
  }

  /** Metadata with the legacy base URI gets the one below the base path; all other metadata is left alone. */
  lemma MetadataGetsBaseUri(codec: Codec, base: Text, name: Text, before: Text, gap: Text, gap': Text, c: char,
                            encoded: Text, after: Text)
    requires AllWhitespace(gap) && AllWhitespace(gap') && (c == '"' || c == '\'') && AsciiByte(c) !in encoded
    requires var v := META_NAME + Assigned(gap, gap', AsciiByte(c), encoded);
             forall j: nat :: j < |before| ==> !At(before + v + after, j, META_NAME)
    ensures var transform, q := MigMetaTransform(codec, base, name), AsciiByte(c);
            var uri := base + Ascii("/proxy/") + name;
            var page := before + (META_NAME + Assigned(gap, gap', q, encoded)) + after;
            && (forall members, i :: HasLegacyUri(codec, encoded, members, i) ==>
                  transform(page) ==
                  before + (META_NAME + Assigned(gap, gap', q, Repointed(codec, members, i, uri))) + transform(after))
            && ((forall members, i :: !HasLegacyUri(codec, encoded, members, i)) ==>
                  transform(page) == before + (META_NAME + Assigned(gap, gap', q, encoded)) + transform(after))
  {
    EqualsSign();
    var uri := base + Ascii("/proxy/") + name;
    hide At, META_NAME, Assigned, Splice, RewritePayload, IsWhitespace, Ascii;
    AssignmentIsRewritten(PayloadRewriter(codec, uri), before, gap, gap', AsciiByte(c), encoded, after);
    forall members, i | HasLegacyUri(codec, encoded, members, i)
      ensures RewritePayload(codec, uri, encoded) == Some(Repointed(codec, members, i, uri))
    {
      PayloadIsRepointed(codec, uri, encoded, members, i);
    }
    if RewritePayload(codec, uri, encoded).Some? {
      var members, i := RewrittenHasLegacyUri(codec, uri, encoded);
    }
  }
}
