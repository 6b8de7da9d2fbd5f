/** Pages of kubekey: attributes are prefixed, then the legacy root is replaced. Exactly when is that idempotent? */
module KubekeyPages {
  import opened Bytes
  import opened LiteralSpec
  import opened PrependIdempotence
  import opened ExactIdempotence
  import opened BasePath
  import opened Profiles
  import opened Policy
  import opened Stages
  import opened ProfileIdempotence
  import AppendIdempotence
  import Html
  import HtmlMigMeta
  import MigMeta

  const KUBEKEY_ROOT: Text := Ascii("/proxy/kubekey/")

  /** The root, its bytes, and where it has slashes. */
  lemma KubekeyRootBytes()
    ensures ProxyRoot(KUBEKEY) == KUBEKEY_ROOT && |KUBEKEY_ROOT| == 15 && IsText(KUBEKEY)
    ensures forall k :: 0 <= k < 15 ==> (KUBEKEY_ROOT[k] == SLASH <==> k == 0 || k == 6 || k == 14)
    ensures forall k :: 0 <= k < 15 ==> KUBEKEY_ROOT[k] >= 0x2F && KUBEKEY_ROOT[k] != 0x35
    ensures Html.Plain(KUBEKEY_ROOT)
  {
    AsciiIsText("kubekey");
    KubekeyRootCharacters();
    var s := "/proxy/kubekey/";
    assert s == "/proxy/" + "kubekey" + "/";
    hide AsciiByte, IsText;
    forall k | 0 <= k < 15
      ensures KUBEKEY_ROOT[k] == SLASH <==> s[k] == '/'
      ensures KUBEKEY_ROOT[k] >= 0x2F && KUBEKEY_ROOT[k] != 0x35
    {
      AsciiByteIsSlash(s[k]);
      AsciiByteIsCode(s[k]);
    }
  }

  lemma KubekeyRootCharacters()
    ensures var s := "/proxy/kubekey/";
            && |s| == 15
            && (forall k :: 0 <= k < 15 ==> '/' <= s[k] <= 'z' && s[k] != '5')
            && (forall k :: 0 <= k < 15 ==> (s[k] == '/' <==> k == 0 || k == 6 || k == 14))
  {
  }

  predicate OneBeginsOther(a: Text, b: Text) {
    a <= b || b <= a
  }

  /**
   * The base path neither brings the legacy root back nor, put in place of one, makes a proxy root
   * together with what stands around it.
   */
  predicate KeepsRootsApart(base: Text) {
    && KeepsLegacyRootAway(base)
    && !OneBeginsOther(base, KUBEKEY_ROOT) && !OneBeginsOther(base, KUBEKEY_ROOT[6..])
  }

  function LegacyRule(base: Text): (rule: Rule)
    ensures rule.Valid() && rule.source == KUBEKEY_LEGACY_ROOT && rule.mode == Exact(base)
  {
    LegacyRootBytes();
    Replacing(KUBEKEY_LEGACY_ROOT, base)
  }

  function Page(base: Text, body: Text): Text {
    Rewritten(LegacyRule(base), Html.InsertAll(SiteOf(base, KUBEKEY), Html.HTML_HEADS, body))
  }

  lemma PageIsResponse(base: Text, codec: MigMeta.Codec, body: Text)
    requires IsBasePath(base)
    ensures IsText(base) && IsText(KUBEKEY)
    ensures Compose(ProfileSpecs(NamedProxyHtmlProfile, base, KUBEKEY, codec), body) == Page(base, body)
  {
    KubekeySite(base);
    BasePathIsText(base);
    hide IsBasePath, IsText, ProfileSpecs, Compose, ProxyRoot, Html.InsertAll, Substitute, KUBEKEY, KUBEKEY_LEGACY_ROOT;
    HtmlResponseIsOnePass(base, KUBEKEY, codec, body);
  }

  lemma KubekeySite(base: Text)
    requires IsBasePath(base)
    ensures SiteOf(base, KUBEKEY) == Html.Site(base, KUBEKEY_ROOT) && SiteOf(base, KUBEKEY).IsPlain()
    ensures IsText(KUBEKEY)
  {
    KubekeyRootBytes();
    BasePathIsText(base);
    hide IsBasePath, ProxyRoot, IsText, KUBEKEY_ROOT, KUBEKEY;
  }

  /** What every head of a page has: whitespace first, and no slash. */
  predicate IsSlashlessHead(h: Text) {
    |h| <= 7 && Html.IsHead(h) && SLASH !in h
  }

  lemma HeadsAreSlashless()
    ensures forall h <- Html.HTML_HEADS :: IsSlashlessHead(h)
  {
    AttributesAreSlashless();
    hide Ascii, Html.ATTRIBUTES, IsSlashlessHead, IsSlashlessName;
    forall h | h in Html.HTML_HEADS ensures IsSlashlessHead(h) {
      var i :| 0 <= i < 20 && h == Html.HTML_HEADS[i];
      SlashlessHead(Html.BOUNDARIES[i / 4], Html.ATTRIBUTES[i % 4]);
    }
  }

  predicate IsSlashlessName(a: Text) {
    |a| <= 6 && Html.Plain(a) && SLASH !in a
  }

  lemma SlashlessHead(b: Byte, a: Text)
    requires IsWhitespace(b) && IsSlashlessName(a)
    ensures IsSlashlessHead([b] + a)
  {
    assert ([b] + a)[1..] == a;
  }

  lemma AttributesAreSlashless()
    ensures |Html.ATTRIBUTES| == 4 && forall k :: 0 <= k < 4 ==> IsSlashlessName(Html.ATTRIBUTES[k])
  {
    Html.AttributeBytes();
    hide Ascii;
  }

  // A base path that keeps the roots apart: a second pass finds nothing.

  /** Where the places for an insertion have slashes. */
  lemma PlaceSlashes(h: Text, k: nat)
    requires IsSlashlessHead(h) && k < |h + KUBEKEY_ROOT| && (h + KUBEKEY_ROOT)[k] == SLASH
    ensures k >= |h| && (k - |h| == 0 || k - |h| == 6 || k - |h| == 14)
    ensures (h + KUBEKEY_ROOT)[k..] == KUBEKEY_ROOT[k - |h|..]
  {
    KubekeyRootBytes();
    hide KUBEKEY_ROOT;
    if k < |h| {
      assert (h + KUBEKEY_ROOT)[k] == h[k];
    }
  }

  /** What a base path in place of a legacy root can begin, of a place, was there with the legacy root. */
  lemma AtLegacyRoot(base: Text, h: Text, k: nat, rest: Text, there: Text)
    requires KeepsRootsApart(base) && base != [] && base[0] == SLASH && IsSlashlessHead(h)
    requires k < |h + KUBEKEY_ROOT| && (h + KUBEKEY_ROOT)[k..] <= base + rest
    requires there != [] && there[0] == SLASH
    ensures (h + KUBEKEY_ROOT)[k..] <= there
  {
    KubekeyRootBytes();
    hide KUBEKEY_ROOT, KeepsLegacyRootAway, IsSlashlessHead;
    var v := (h + KUBEKEY_ROOT)[k..];
    assert v[0] == base[0];
    PlaceSlashes(h, k);
    AppendIdempotence.Compatible(v, base, base + rest);
    assert KUBEKEY_ROOT[0..] == KUBEKEY_ROOT;
    assert k - |h| == 14;
    assert v == [SLASH];
  }

  /** A place, or an end of one, begins the output only where it begins the page. */
  lemma {:induction false} PlaceWasThere(base: Text, h: Text, page: Text, i: nat, k: nat)
    requires KeepsRootsApart(base) && base != [] && base[0] == SLASH && IsSlashlessHead(h)
    requires i <= |page| && k <= |h + KUBEKEY_ROOT|
    requires (h + KUBEKEY_ROOT)[k..] <= Substitute(LegacyRule(base), page, i)
    ensures (h + KUBEKEY_ROOT)[k..] <= page[i..]
    decreases |page| - i
  {
    hide *;
    var p, rule := h + KUBEKEY_ROOT, LegacyRule(base);
    SubstituteUnfolds(rule, page, i);
    ExactIsRendered(base, page, i);
    if k == |p| || i == |page| {
      assert p[k..] == [];
    } else if At(page, i, KUBEKEY_LEGACY_ROOT) {
      LegacyBegins(page, i);
      AtLegacyRoot(base, h, k, Substitute(rule, page, i + |KUBEKEY_LEGACY_ROOT|), page[i..]);
    } else {
      PrefixOfCons(p[k..], page[i], Substitute(rule, page, i + 1));
      assert p[k..][1..] == p[k + 1..];
      PlaceWasThere(base, h, page, i + 1, k + 1);
      SliceFrom(page, i);
      PrefixOfCons(p[k..], page[i], page[i + 1..]);
    }
  }

  lemma ExactIsRendered(base: Text, page: Text, i: nat)
    requires i <= |page|
    ensures Rendered(LegacyRule(base), page, i) == base
  {
  }

  lemma LegacyBegins(page: Text, i: nat)
    requires At(page, i, KUBEKEY_LEGACY_ROOT)
    ensures i < |page| && page[i..] != [] && page[i..][0] == SLASH
  {
    LegacyRootBytes();
    hide KUBEKEY_LEGACY_ROOT;
    AtSplits(page, i, KUBEKEY_LEGACY_ROOT);
  }

  lemma {:induction false} NoNewPlace(base: Text, h: Text, page: Text, i: nat)
    requires KeepsRootsApart(base) && base != [] && base[0] == SLASH && IsSlashlessHead(h) && Html.Plain(base)
    requires i <= |page| && HtmlMigMeta.Nowhere(h + KUBEKEY_ROOT, page)
    ensures HtmlMigMeta.Nowhere(h + KUBEKEY_ROOT, Substitute(LegacyRule(base), page, i))
    decreases |page| - i
  {
    hide *;
    var p, rule := h + KUBEKEY_ROOT, LegacyRule(base);
    var out := Substitute(rule, page, i);
    HeadIsWhitespace(h);
    SubstituteUnfolds(rule, page, i);
    ExactIsRendered(base, page, i);
    if i == |page| {
      NowhereInNothing(p);
    } else if At(page, i, KUBEKEY_LEGACY_ROOT) {
      NoNewPlace(base, h, page, i + |KUBEKEY_LEGACY_ROOT|);
      PlainBefore(p, base, Substitute(rule, page, i + |KUBEKEY_LEGACY_ROOT|));
    } else {
      NoNewPlace(base, h, page, i + 1);
      if p <= out {
        assert p[0..] == p;
        PlaceWasThere(base, h, page, i, 0);
        AtBegins(page, i, p);
        NowhereMeans(p, page, i);
      }
      NotAtFirst(p, page[i], Substitute(rule, page, i + 1));
    }
  }

  lemma HeadIsWhitespace(h: Text)
    requires IsSlashlessHead(h)
    ensures h != [] && IsWhitespace((h + KUBEKEY_ROOT)[0])
  {
  }

  lemma NowhereInNothing(p: Text)
    requires p != []
    ensures HtmlMigMeta.Nowhere(p, [])
  {
  }

  lemma NowhereMeans(p: Text, s: Text, j: nat)
    requires HtmlMigMeta.Nowhere(p, s)
    ensures !At(s, j, p)
  {
    hide At;
  }

  lemma PlainBefore(p: Text, front: Text, rest: Text)
    requires p != [] && IsWhitespace(p[0]) && Html.Plain(front) && HtmlMigMeta.Nowhere(p, rest)
    ensures HtmlMigMeta.Nowhere(p, front + rest)
  {
    forall j: nat ensures !At(front + rest, j, p) {
      if j < |front| {
        assert (front + rest)[j] == front[j];
        if j + |p| <= |front + rest| {
          assert (front + rest)[j..j + |p|][0] == front[j];
        }
      } else {
        assert (front + rest)[|front|..] == rest;
        AtShifts(front + rest, |front|, j - |front|, p);
      }
    }
  }

  lemma NotAtFirst(p: Text, b: Byte, rest: Text)
    requires p != [] && !(p <= [b] + rest) && HtmlMigMeta.Nowhere(p, rest)
    ensures HtmlMigMeta.Nowhere(p, [b] + rest)
  {
    var out := [b] + rest;
    forall j: nat ensures !At(out, j, p) {
      if j == 0 {
        assert out[0..] == out;
        AtBegins(out, 0, p);
      } else {
        assert out[1..] == rest;
        AtShifts(out, 1, j - 1, p);
      }
    }
  }

  /** The page that was written holds neither a place for an insertion nor a legacy root. */
  lemma NothingToDo(base: Text, body: Text)
    requires IsBasePath(base) && KeepsRootsApart(base) && base != KUBEKEY_LEGACY_ROOT
    ensures Page(base, Page(base, body)) == Page(base, body)
  {
    hide *;
    BasePathIsText(base);
    KubekeySite(base);
    var site, heads := SiteOf(base, KUBEKEY), Html.HTML_HEADS;
    var page := Html.InsertAll(site, heads, body);
    var written := Rewritten(LegacyRule(base), page);
    PageOfBody(base, body);
    PageOfBody(base, written);
    RootsApart(base);
    Html.HtmlHeadsAreHeads();
    Html.SecondPassChangesNothing(site, heads, body);
    Html.KeptExactlyWithoutSite(site, heads, page);
    HeadsAreSlashless();
    forall h | h in heads ensures HtmlMigMeta.Nowhere(h + KUBEKEY_ROOT, written) {
      NoSiteMeans(site, heads, page, h);
      NoNewPlace(base, h, page, 0);
      RewrittenIs(base, page);
    }
    SiteMeans(site, heads, written);
    Html.KeptWithoutSite(site, heads, written);
    LegacyRootBytes();
    LegacyIsGone(base, page);
  }

  lemma PageOfBody(base: Text, body: Text)
    ensures Page(base, body) ==
            Rewritten(LegacyRule(base), Html.InsertAll(SiteOf(base, KUBEKEY), Html.HTML_HEADS, body))
  {
    hide Substitute, Html.InsertAll, Ascii;
  }

  lemma RewrittenIs(base: Text, page: Text)
    ensures Rewritten(LegacyRule(base), page) == Substitute(LegacyRule(base), page, 0)
  {
  }

  /** What the conditions on the base path amount to. */
  lemma RootsApart(base: Text)
    requires KeepsRootsApart(base) && SiteOf(base, KUBEKEY) == Html.Site(base, KUBEKEY_ROOT)
    ensures base != [] && Html.RootIsHidden(SiteOf(base, KUBEKEY)) && KeepsLegacyRootAway(base)
  {
    hide KUBEKEY_ROOT, KUBEKEY_LEGACY_ROOT, KeepsLegacyRootAway;
    assert [] <= KUBEKEY_ROOT;
    if KUBEKEY_ROOT <= base + KUBEKEY_ROOT {
      AppendIdempotence.Compatible(KUBEKEY_ROOT, base, base + KUBEKEY_ROOT);
    }
  }

  lemma NoSiteMeans(site: Html.Site, heads: seq<Text>, s: Text, h: Text)
    requires Html.NoSite(site, heads, s) && h in heads
    ensures HtmlMigMeta.Nowhere(h + site.root, s)
  {
    hide At;
  }

  lemma SiteMeans(site: Html.Site, heads: seq<Text>, s: Text)
    requires forall h <- heads :: HtmlMigMeta.Nowhere(h + site.root, s)
    ensures Html.NoSite(site, heads, s)
  {
    hide At;
  }

  lemma LegacyIsGone(base: Text, page: Text)
    requires base != [] && base[0] == SLASH && KeepsLegacyRootAway(base) && base != KUBEKEY_LEGACY_ROOT
    ensures !Occurs(KUBEKEY_LEGACY_ROOT, Rewritten(LegacyRule(base), page))
    ensures var written := Rewritten(LegacyRule(base), page); Rewritten(LegacyRule(base), written) == written
  {
    LegacyRootBytes();
    hide Substitute, Occurs, EndBegins, KUBEKEY_LEGACY_ROOT, OnlyBeginsWith;
    NothingLeft(KUBEKEY_LEGACY_ROOT, base, SLASH, page, 0);
    KeptWithoutSource(LegacyRule(base), Rewritten(LegacyRule(base), page));
  }

  lemma SameRootChangesNothing(body: Text)
    requires IsBasePath(KUBEKEY_LEGACY_ROOT) && KeepsRootsApart(KUBEKEY_LEGACY_ROOT)
    ensures Page(KUBEKEY_LEGACY_ROOT, Page(KUBEKEY_LEGACY_ROOT, body)) == Page(KUBEKEY_LEGACY_ROOT, body)
  {
    hide *;
    var base := KUBEKEY_LEGACY_ROOT;
    var site, heads := SiteOf(base, KUBEKEY), Html.HTML_HEADS;
    KubekeySite(base);
    RootsApart(base);
    var page := Html.InsertAll(site, heads, body);
    PageOfBody(base, body);
    PageOfBody(base, page);
    SameRuleKeeps(page);
    SameRuleKeeps(Html.InsertAll(site, heads, page));
    Html.HtmlHeadsAreHeads();
    Html.SecondPassChangesNothing(site, heads, body);
  }

  lemma SameRuleKeeps(page: Text)
    ensures Rewritten(LegacyRule(KUBEKEY_LEGACY_ROOT), page) == page
  {
    LegacyRootBytes();
    hide Substitute, KUBEKEY_LEGACY_ROOT;
    SameIsKept(KUBEKEY_LEGACY_ROOT, page);
  }

  // Otherwise: bodies that a second pass changes.

  lemma PlainPage(base: Text, text: Text)
    requires IsBasePath(base) && Html.Plain(text)
    ensures Page(base, text) == Rewritten(LegacyRule(base), text)
  {
    hide *;
    PageOfBody(base, text);
    Html.HtmlHeadsAreHeads();
    Html.PlainIsCopied(SiteOf(base, KUBEKEY), Html.HTML_HEADS, text);
  }

  lemma {:induction false} OutputIsPlain(base: Text, text: Text, i: nat)
    requires Html.Plain(base) && Html.Plain(text) && i <= |text|
    ensures Html.Plain(Substitute(LegacyRule(base), text, i))
    decreases |text| - i
  {
    var rule := LegacyRule(base);
    hide Substitute, At, LegacyRule, KUBEKEY_LEGACY_ROOT;
    SubstituteUnfolds(rule, text, i);
    ExactIsRendered(base, text, i);
    if i < |text| {
      OutputIsPlain(base, text, if At(text, i, rule.source) then i + |rule.source| else i + 1);
    }
  }

  /** The legacy root comes back, in a body without any attribute. */
  lemma LegacyRootComesBack(base: Text) returns (body: Text)
    requires IsBasePath(base) && !KeepsLegacyRootAway(base)
    ensures Page(base, Page(base, body)) != Page(base, body)
  {
    BasePathIsText(base);
    LegacyRootBytes();
    LegacyRootIsPlain();
    hide IsBasePath, Substitute, KUBEKEY_LEGACY_ROOT, Occurs, EndBegins, OnlyBeginsWith, Page, Html.Plain;
    body := Counterexample(KUBEKEY_LEGACY_ROOT, base, SLASH);
    PlainPieces(KUBEKEY_LEGACY_ROOT, body);
    OutputIsPlain(base, body, 0);
    PlainPage(base, body);
    PlainPage(base, Rewritten(LegacyRule(base), body));
  }

  lemma LegacyRootIsPlain()
    ensures Html.Plain(KUBEKEY_LEGACY_ROOT)
  {
    var s := "/57516e69-2cb0-4d48-a8a8-2833cfff87a9";
    assert forall k :: 0 <= k < |s| ==> '-' <= s[k] <= 'z';
    hide AsciiByte;
    forall k | 0 <= k < |s| ensures KUBEKEY_LEGACY_ROOT[k] >= 0x2D {
      AsciiByteIsCode(s[k]);
    }
  }

  lemma PlainPieces(s: Text, x: Text)
    requires Html.Plain(s) && forall b <- x :: b in s
    ensures Html.Plain(x)
  {
    forall i | 0 <= i < |x| ensures !IsWhitespace(x[i]) {
      var b := x[i];
      assert b in x;
      assert b in s;
    }
  }

  /** A head, the beginning of the root up to a slash, the legacy root, and what then completes the root. */
  function Split(base: Text, h: Text, m: nat): (body: Text)
    requires m <= |KUBEKEY_ROOT|
  {
    h + KUBEKEY_ROOT[..m] + KUBEKEY_LEGACY_ROOT + Completing(base, m)
  }

  function Completing(base: Text, m: nat): Text
    requires m <= |KUBEKEY_ROOT|
  {
    if base <= KUBEKEY_ROOT[m..] then KUBEKEY_ROOT[m + |base|..] else []
  }

  /** What the first pass makes of it begins with the head and the root. */
  lemma RootIsMade(base: Text, h: Text, m: nat)
    requires m <= |KUBEKEY_ROOT| && OneBeginsOther(base, KUBEKEY_ROOT[m..])
    ensures var rest := KUBEKEY_ROOT[..m] + base + Completing(base, m);
            h + KUBEKEY_ROOT <= h + rest
  {
    hide KUBEKEY_ROOT;
    var root := KUBEKEY_ROOT;
    assert root == root[..m] + root[m..];
    if base <= root[m..] {
      assert root[m..] == base + root[m..][|base|..];
      assert root[m..][|base|..] == root[m + |base|..];
    } else {
      assert base == root[m..] + base[|root| - m..];
    }
  }

  lemma FirstPassKeepsSplit(base: Text, h: Text, m: nat)
    requires IsBasePath(base) && h in Html.HTML_HEADS && (m == 0 || m == 6)
    requires m <= |KUBEKEY_ROOT| && KUBEKEY_ROOT != []
    ensures Html.InsertAll(SiteOf(base, KUBEKEY), Html.HTML_HEADS, Split(base, h, m)) == Split(base, h, m)
  {
    hide *;
    var site, heads := SiteOf(base, KUBEKEY), Html.HTML_HEADS;
    KubekeySite(base);
    Html.HtmlHeadsAreHeads();
    var body := Split(base, h, m);
    SplitIsBlock(base, h, m);
    forall g | g in heads ensures !(g + site.root <= body) {
      SplitIsNoPlace(base, heads, h, g, m);
    }
    Html.LeadingIsNone(site, heads, body);
    Html.NoHeadOfBlock(site, heads, body);
  }

  lemma SplitIsBlock(base: Text, h: Text, m: nat)
    requires h in Html.HTML_HEADS && m <= |KUBEKEY_ROOT|
    ensures Html.IsBlock(Split(base, h, m)) && h <= Split(base, h, m)
  {
    hide *;
    SplitRestIsPlain(base, m);
    Html.HtmlHeadsAreHeads();
    Html.HeadIsNotEmpty(Html.HTML_HEADS, h);
    SplitParts(base, h, m);
    BlockOfHead(h, KUBEKEY_ROOT[..m] + KUBEKEY_LEGACY_ROOT + Completing(base, m));
  }

  lemma SplitParts(base: Text, h: Text, m: nat)
    requires m <= |KUBEKEY_ROOT|
    ensures Split(base, h, m) == h + (KUBEKEY_ROOT[..m] + KUBEKEY_LEGACY_ROOT + Completing(base, m))
  {
    hide KUBEKEY_ROOT, KUBEKEY_LEGACY_ROOT, Completing;
    Reassociate(h, KUBEKEY_ROOT[..m], KUBEKEY_LEGACY_ROOT);
    Reassociate(h, KUBEKEY_ROOT[..m] + KUBEKEY_LEGACY_ROOT, Completing(base, m));
  }

  lemma BlockOfHead(h: Text, rest: Text)
    requires h != [] && Html.Plain(h[1..]) && Html.Plain(rest)
    ensures Html.IsBlock(h + rest) && h <= h + rest
  {
    hide Html.Plain;
    DropOfConcat(h, rest, 1);
    Html.PlainConcat(h[1..], rest);
  }

  lemma SplitRestIsPlain(base: Text, m: nat)
    requires m <= |KUBEKEY_ROOT|
    ensures Html.Plain(KUBEKEY_ROOT[..m] + KUBEKEY_LEGACY_ROOT + Completing(base, m))
  {
    KubekeyRootBytes();
    LegacyRootIsPlain();
    hide KUBEKEY_ROOT, KUBEKEY_LEGACY_ROOT, Html.Plain, ProxyRoot, IsText;
    var end := Completing(base, m);
    PlainSlice(KUBEKEY_ROOT, 0, m);
    PlainSlice(KUBEKEY_ROOT, |KUBEKEY_ROOT| - |end|, |KUBEKEY_ROOT|);
    assert KUBEKEY_ROOT[0..m] == KUBEKEY_ROOT[..m];
    assert end == KUBEKEY_ROOT[|KUBEKEY_ROOT| - |end|..|KUBEKEY_ROOT|];
    Html.PlainConcat(KUBEKEY_ROOT[..m], KUBEKEY_LEGACY_ROOT);
    Html.PlainConcat(KUBEKEY_ROOT[..m] + KUBEKEY_LEGACY_ROOT, end);
  }

  lemma PlainSlice(s: Text, i: nat, j: nat)
    requires Html.Plain(s) && i <= j <= |s|
    ensures Html.Plain(s[i..j])
  {
  }

  /** The root does not begin where the legacy root stands. */
  lemma SplitIsNoPlace(base: Text, heads: seq<Text>, h: Text, g: Text, m: nat)
    requires Html.Heads(heads) && h in heads && g in heads && (m == 0 || m == 6) && m <= |KUBEKEY_ROOT|
    ensures !(g + KUBEKEY_ROOT <= Split(base, h, m))
  {
    hide *;
    SplitByte(base, h, m);
    if g + KUBEKEY_ROOT <= Split(base, h, m) {
      PlaceInSplit(base, heads, h, g, m);
    }
  }

  /** Behind the slash at which the root is split stands the legacy root, which goes on differently. */
  lemma SplitByte(base: Text, h: Text, m: nat)
    requires (m == 0 || m == 6) && m <= |KUBEKEY_ROOT|
    ensures |KUBEKEY_ROOT| == 15 && |Split(base, h, m)| > |h| + m + 1
    ensures Split(base, h, m)[|h| + m + 1] != KUBEKEY_ROOT[m + 1]
  {
    KubekeyRootBytes();
    LegacyRootBytes();
    hide KUBEKEY_ROOT, KUBEKEY_LEGACY_ROOT, ProxyRoot, IsText, OnlyBeginsWith, Html.Plain, Completing;
  }

  lemma PlaceInSplit(base: Text, heads: seq<Text>, h: Text, g: Text, m: nat)
    requires Html.Heads(heads) && h in heads && g in heads && m + 1 < |KUBEKEY_ROOT|
    requires g + KUBEKEY_ROOT <= Split(base, h, m)
    ensures |Split(base, h, m)| > |h| + m + 1 && Split(base, h, m)[|h| + m + 1] == KUBEKEY_ROOT[m + 1]
  {
    SplitParts(base, h, m);
    hide KUBEKEY_ROOT, KUBEKEY_LEGACY_ROOT, Html.Heads, Completing, Split;
    var body := Split(base, h, m);
    assert g <= g + KUBEKEY_ROOT && g + [] == g;
    Html.OnlyOneHeadLeads(Html.Site(base, []), heads, h, g, body);
    assert (g + KUBEKEY_ROOT)[|g| + m + 1] == KUBEKEY_ROOT[m + 1];
  }

  lemma SplitIsReplaced(base: Text, h: Text, m: nat)
    requires h in Html.HTML_HEADS && (m == 0 || m == 6) && m <= |KUBEKEY_ROOT|
    ensures Rewritten(LegacyRule(base), Split(base, h, m)) == h + (KUBEKEY_ROOT[..m] + base + Completing(base, m))
  {
    KubekeyRootBytes();
    LegacyRootBytes();
    HeadsAreSlashless();
    hide KUBEKEY_ROOT, KUBEKEY_LEGACY_ROOT, ProxyRoot, IsText, OnlyBeginsWith, Html.Plain, Html.HTML_HEADS, Substitute;
    var s, before, after := KUBEKEY_LEGACY_ROOT, h + KUBEKEY_ROOT[..m], Completing(base, m);
    var x := before + s + after;
    BeginIsNotEmpty(s, SLASH);
    assert x[|before|] == s[0];
    forall j: nat | j < |before| ensures !At(x, j, s) {
      NotAcrossBeginning(s, SLASH, x, j, |before|);
    }
    OneReplacement(s, base, before, after);
    assert before + base + after == h + (KUBEKEY_ROOT[..m] + base + after);
  }

  /** In what the second pass inserts there is no legacy root either. */
  lemma NoLegacyAfterInsertion(base: Text, h: Text, rest: Text)
    requires base != [] && KeepsLegacyRootAway(base) && base != KUBEKEY_LEGACY_ROOT
    requires IsSlashlessHead(h) && !Occurs(KUBEKEY_LEGACY_ROOT, h + rest)
    ensures !Occurs(KUBEKEY_LEGACY_ROOT, h + (base + rest))
  {
    LegacyRootBytes();
    hide KUBEKEY_LEGACY_ROOT, Html.IsHead, At, EndBegins;
    var s, v := KUBEKEY_LEGACY_ROOT, h + (base + rest);
    forall j | 0 <= j <= |v| ensures !At(v, j, s) {
      if j < |h| {
        assert v[j] == h[j] && h[j] in h;
        NotAtOtherByte(s, SLASH, v, j);
      } else {
        assert v[|h|..] == base + rest;
        AtShifts(v, |h|, j - |h|, s);
        if j - |h| < |base| {
          NotBeforeReplacement(s, base, rest, j - |h|);
        } else {
          assert (base + rest)[|base|..] == rest && (h + rest)[|h|..] == rest;
          AtShifts(base + rest, |base|, j - |h| - |base|, s);
          AtShifts(h + rest, |h|, j - |h| - |base|, s);
          assert !At(h + rest, j - |base|, s);
        }
      }
    }
  }

  /** The proxy root is made in place of the legacy root, and prefixed by the second pass. */
  lemma RootIsPrefixedLater(base: Text, m: nat) returns (body: Text)
    requires IsBasePath(base) && KeepsLegacyRootAway(base) && (m == 0 || m == 6) && m <= |KUBEKEY_ROOT|
    requires OneBeginsOther(base, KUBEKEY_ROOT[m..])
    ensures Page(base, Page(base, body)) != Page(base, body)
    ensures |Html.HTML_HEADS| == 20 && body == Split(base, Html.HTML_HEADS[0], m)
  {
    hide *;
    BasePathIsText(base);
    KubekeySite(base);
    KubekeyRootBytes();
    OtherThanLegacy(base, m);
    FirstHead();
    var h, heads, site := Html.HTML_HEADS[0], Html.HTML_HEADS, SiteOf(base, KUBEKEY);
    body := Split(base, h, m);
    FirstPassKeepsSplit(base, h, m);
    SplitIsReplaced(base, h, m);
    PageOfBody(base, body);
    var rest := KUBEKEY_ROOT[..m] + base + Completing(base, m);
    var once := h + rest;
    RootIsMade(base, h, m);
    RestIsPlain(base, m);
    Html.HtmlHeadsAreHeads();
    HeadIsPassed(site, heads, h, rest);
    PageOfBody(base, once);
    LegacyIsGone(base, Html.InsertAll(site, heads, body));
    HeadsAreSlashless();
    NoLegacyAfterInsertion(base, h, rest);
    LegacyKept(base, h + (base + rest));
    assert |h + (base + rest)| > |once|;
  }

  lemma LegacyKept(base: Text, text: Text)
    requires !Occurs(KUBEKEY_LEGACY_ROOT, text)
    ensures Rewritten(LegacyRule(base), text) == text
  {
    hide Substitute, KUBEKEY_LEGACY_ROOT, Occurs;
    KeptWithoutSource(LegacyRule(base), text);
  }

  lemma OtherThanLegacy(base: Text, m: nat)
    requires (m == 0 || m == 6) && m <= |KUBEKEY_ROOT| && OneBeginsOther(base, KUBEKEY_ROOT[m..])
    requires KeepsLegacyRootAway(base)
    ensures base != KUBEKEY_LEGACY_ROOT && base != []
  {
    KubekeyRootBytes();
    LegacyRootBytes();
    hide KUBEKEY_ROOT, KUBEKEY_LEGACY_ROOT, ProxyRoot, IsText, OnlyBeginsWith, Html.Plain, Occurs, EndBegins;
    assert KUBEKEY_ROOT[m..][1] == KUBEKEY_ROOT[m + 1];
  }

  lemma RestIsPlain(base: Text, m: nat)
    requires Html.Plain(base) && Html.Plain(KUBEKEY_ROOT) && m <= |KUBEKEY_ROOT|
    ensures Html.Plain(KUBEKEY_ROOT[..m] + base + Completing(base, m))
  {
    hide KUBEKEY_ROOT;
  }

  /** The pages of kubekey are rewritten idempotently exactly when the base path keeps the two roots apart. */
  lemma KubekeyHtmlIsIdempotentExactlyWhen(base: Text, codec: MigMeta.Codec)
    requires IsBasePath(base)
    ensures IsIdempotent(NamedProxyHtmlProfile, base, KUBEKEY, codec) <==> KeepsRootsApart(base)
  {
    KubekeyRootBytes();
    hide IsBasePath, IsText, ProfileSpecs, Compose, Page, KUBEKEY, KUBEKEY_ROOT, KUBEKEY_LEGACY_ROOT, ProxyRoot;
    hide KeepsLegacyRootAway, OneBeginsOther, Html.Plain;
    BasePathIsText(base);
    var specs := ProfileSpecs(NamedProxyHtmlProfile, base, KUBEKEY, codec);
    forall body ensures Compose(specs, body) == Page(base, body) {
      PageIsResponse(base, codec, body);
    }
    if KeepsRootsApart(base) {
      forall body ensures Compose(specs, Compose(specs, body)) == Compose(specs, body) {
        if base == KUBEKEY_LEGACY_ROOT {
          SameRootChangesNothing(body);
        } else {
          NothingToDo(base, body);
        }
      }
    } else {
      var body := ChangedBody(base);
      SecondPassChanges(NamedProxyHtmlProfile, base, KUBEKEY, codec, specs, body);
      NotIdempotent(NamedProxyHtmlProfile, base, KUBEKEY, codec, body);
    }
  }

  lemma ChangedBody(base: Text) returns (body: Text)
    requires IsBasePath(base) && !KeepsRootsApart(base)
    ensures Page(base, Page(base, body)) != Page(base, body)
  {
    KubekeyRootBytes();
    hide IsBasePath, Page, KUBEKEY_ROOT, KUBEKEY_LEGACY_ROOT, KeepsLegacyRootAway, OneBeginsOther, Html.Plain;
    if !KeepsLegacyRootAway(base) {
      body := LegacyRootComesBack(base);
    } else if OneBeginsOther(base, KUBEKEY_ROOT) {
      assert KUBEKEY_ROOT[0..] == KUBEKEY_ROOT;
      body := RootIsPrefixedLater(base, 0);
    } else {
      body := RootIsPrefixedLater(base, 6);
    }
  }

  const KUBEKEY_BASE: Text := Ascii("/kubekey")

  /** A base path that makes a proxy root in place of the legacy root. */
  lemma BasePathMakesRoot(codec: MigMeta.Codec)
    ensures IsBasePath(KUBEKEY_BASE) && |KUBEKEY_ROOT| == 15 && |Html.HTML_HEADS| == 20
    ensures ChangesTwice(NamedProxyHtmlProfile, KUBEKEY_BASE, KUBEKEY, codec,
                         Split(KUBEKEY_BASE, Html.HTML_HEADS[0], 6))
  {
    SimplePathOfLiteral("/kubekey");
    KubekeyBaseBeginsRoot();
    hide *;
    SimplePathIsBasePath(KUBEKEY_BASE);
    KubekeyRootBytes();
    var body := RootIsPrefixedLater(KUBEKEY_BASE, 6);
    PageIsResponse(KUBEKEY_BASE, codec, body);
    PageIsResponse(KUBEKEY_BASE, codec, Page(KUBEKEY_BASE, body));
    var specs := ProfileSpecs(NamedProxyHtmlProfile, KUBEKEY_BASE, KUBEKEY, codec);
    SecondPassChanges(NamedProxyHtmlProfile, KUBEKEY_BASE, KUBEKEY, codec, specs, body);
  }

  lemma KubekeyBaseBeginsRoot()
    ensures KeepsLegacyRootAway(KUBEKEY_BASE) && |KUBEKEY_ROOT| == 15
    ensures OneBeginsOther(KUBEKEY_BASE, KUBEKEY_ROOT[6..])
  {
    LegacyRootBytes();
    assert "/kubekey" == "/proxy/kubekey/"[6..14];
    assert KUBEKEY_BASE == KUBEKEY_ROOT[6..14] == KUBEKEY_ROOT[6..][..8];
    KubekeyRootBytes();
    hide KUBEKEY_LEGACY_ROOT, KUBEKEY_BASE, KUBEKEY_ROOT, ProxyRoot, IsText, Html.Plain;
    TooShort(KUBEKEY_LEGACY_ROOT, KUBEKEY_BASE);
    forall o | 0 <= o < |KUBEKEY_BASE| ensures !(KUBEKEY_BASE[o..] <= KUBEKEY_LEGACY_ROOT) {
      assert KUBEKEY_BASE[o..][0] == KUBEKEY_ROOT[6 + o];
      assert o == 0 ==> KUBEKEY_BASE[o..][1] == KUBEKEY_ROOT[7];
    }
  }
}
