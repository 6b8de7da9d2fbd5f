/** Which requests are rewritten, and how: the router and the path grammar it recognises. */
module Policy {
  import opened Bytes

  datatype RewriteRule = ConsoleV3 | JsBundle | FrontendIndexJsBundle | NamedProxyHtml | Ys1000Html | KubekeyAssetJs

  datatype Profile =
    | ConsoleV3Profile
    | FrontendIndexProfile
    | Ys1000FrontendIndexProfile
    | JsBundleProfile
    | KubekeyAssetProfile
    | NamedProxyHtmlProfile
    | Ys1000HtmlProfile

  datatype Decision = Bypass | Rewrite(profile: Profile, extension: string, headOnly: bool)

  datatype ExtensionMatcher = All | Allowlist(extensions: set<string>)

  datatype RewritePolicy = RewritePolicy(basePath: string, extensions: ExtensionMatcher,
                                         disabled: set<string>, rules: set<RewriteRule>)

  const FRONTEND := "-frontend"

  // The string operations of the router.

  predicate EndsIn(s: string, suffix: string) {
    |suffix| <= |s| && s[|s| - |suffix|..] == suffix
  }

  function StripPrefix(s: string, prefix: string): (r: Option<string>)
    ensures r.Some? <==> prefix <= s
    ensures r.Some? ==> s == prefix + r.value
  {
    if prefix <= s then Some(s[|prefix|..]) else None
  }

  function StripSuffix(s: string, suffix: string): (r: Option<string>)
    ensures r.Some? <==> EndsIn(s, suffix)
    ensures r.Some? ==> s == r.value + suffix
  {
    if EndsIn(s, suffix) then Some(s[..|s| - |suffix|]) else None
  }

  predicate IsAt(s: string, i: nat, pattern: string) {
    i + |pattern| <= |s| && s[i..i + |pattern|] == pattern
  }

  function IndexFrom(s: string, pattern: string, from: nat): (i: Option<nat>)
    ensures i.Some? ==> from <= i.value && IsAt(s, i.value, pattern)
    ensures i.Some? ==> forall j: nat :: from <= j < i.value ==> !IsAt(s, j, pattern)
    ensures i.None? ==> forall j: nat :: from <= j ==> !IsAt(s, j, pattern)
    decreases |s| - from
  {
    if from > |s| then None else if IsAt(s, from, pattern) then Some(from) else IndexFrom(s, pattern, from + 1)
  }

  /** `split_once`: at the first occurrence. */
  function SplitOnce(s: string, pattern: string): (r: Option<(string, string)>)
    ensures r.Some? ==> s == r.value.0 + pattern + r.value.1
  {
    match IndexFrom(s, pattern, 0)
    case None => None
    case Some(i) => Some((s[..i], s[i + |pattern|..]))
  }

  function LowerCase(c: char): char {
    if 'A' <= c <= 'Z' then c - 'A' + 'a' else c
  }

  predicate EqualIgnoringCase(a: string, b: string) {
    |a| == |b| && forall i :: 0 <= i < |a| ==> LowerCase(a[i]) == LowerCase(b[i])
  }

  predicate IsAlphanumeric(c: char) {
    'a' <= c <= 'z' || 'A' <= c <= 'Z' || '0' <= c <= '9'
  }

  predicate IsSafeExtensionName(value: string) {
    && value != "" && |value| <= 128
    && (forall i :: 0 <= i < |value| ==> IsAlphanumeric(value[i]) || value[i] in {'-', '_', '.'})
    && IsAlphanumeric(value[0])
  }

  const TEXT_SUFFIXES: seq<string> := [".js", ".mjs", ".css", ".json", ".html", ".htm"]

  function LastSegment(s: string): string
    decreases |s|
  {
    if '/' in s then
      var i := IndexFrom(s, "/", 0);
      if i.Some? then LastSegment(s[i.value + 1..]) else s
    else s
  }

  predicate IsTextAsset(asset: string) {
    exists suffix <- TEXT_SUFFIXES :: EndsIn(LastSegment(asset), suffix)
  }

  /** What follows the distribution directory, which is named like the extension, or without `-frontend`. */
  function JsBundleAssetPath(extension: string, distribution: string): Option<string> {
    var direct := match StripPrefix(distribution, extension)
                  case Some(path) => StripPrefix(path, "/")
                  case None => None;
    if direct.Some? then direct
    else match StripSuffix(extension, FRONTEND)
         case None => None
         case Some(name) =>
           match StripPrefix(distribution, name)
           case Some(path) => StripPrefix(path, "/")
           case None => None
  }

  predicate IsExtensionEnabled(policy: RewritePolicy, extension: string) {
    && IsSafeExtensionName(extension)
    && extension !in policy.disabled
    && (policy.extensions.Allowlist? ==> extension in policy.extensions.extensions)
  }

  // The router.

  function NamedProxyProfile(rules: set<RewriteRule>, name: string, asset: string): Option<Profile> {
    if name == "ys1000" then
      if Ys1000Html in rules then Some(Ys1000HtmlProfile)
      else if NamedProxyHtml in rules then Some(NamedProxyHtmlProfile) else None
    else if asset != "" && EndsIn(asset, ".js") then
      if name == "kubekey" && "assets/" <= asset && KubekeyAssetJs in rules
      then Some(KubekeyAssetProfile) else None
    else if NamedProxyHtml in rules then Some(NamedProxyHtmlProfile) else None
  }

  function JsBundleProfileOf(rules: set<RewriteRule>, extension: string, distribution: string,
                             asset: string): Option<Profile> {
    if EndsIn(extension, FRONTEND) && asset == "index.js" && FrontendIndexJsBundle in rules then
      if extension == "ys1000-frontend" && distribution == "ys1000-frontend/index.js"
      then Some(Ys1000FrontendIndexProfile) else Some(FrontendIndexProfile)
    else if JsBundle in rules then Some(JsBundleProfile) else None
  }

  /** Name and asset path, below the proxy root. */
  function NamedProxyRequest(policy: RewritePolicy, path: string): Option<(string, string)> {
    match StripPrefix(path, policy.basePath + "/proxy/")
    case None => None
    case Some(proxyPath) =>
      match SplitOnce(proxyPath, "/")
      case None => None
      case Some((name, asset)) => if name == "" then None else Some((name, asset))
  }

  /** Extension, distribution path and asset, below the bundle root. */
  function JsBundleRequest(policy: RewritePolicy, path: string): Option<(string, string, string)> {
    match StripPrefix(path, policy.basePath + "/jsbundles/")
    case None => None
    case Some(bundle) =>
      match SplitOnce(bundle, "/dist/")
      case None => None
      case Some((extension, distribution)) =>
        match JsBundleAssetPath(extension, distribution)
        case None => None
        case Some(asset) =>
          if IsExtensionEnabled(policy, extension) && asset != "" && '/' !in asset && EndsIn(asset, ".js")
          then Some((extension, distribution, asset)) else None
  }

  /** Extension and asset path, below the static root. */
  function StaticRequest(policy: RewritePolicy, path: string): Option<(string, string)> {
    match StripPrefix(path, policy.basePath + "/extensions-static/")
    case None => None
    case Some(extensionPath) =>
      match SplitOnce(extensionPath, "/dist/v3dist/")
      case None => None
      case Some((extension, asset)) =>
        if extension == "" || asset == "" || '/' in extension || !IsExtensionEnabled(policy, extension)
           || !IsTextAsset(asset)
        then None else Some((extension, asset))
  }

  predicate IsRewritableMethod(method_: string) {
    EqualIgnoringCase(method_, "GET") || EqualIgnoringCase(method_, "HEAD")
  }

  function Decide(policy: RewritePolicy, method_: string, path: string): Decision {
    if policy.basePath == "" || !IsRewritableMethod(method_) then Bypass
    else
      var headOnly := EqualIgnoringCase(method_, "HEAD");
      match NamedProxyRequest(policy, path)
      case Some((name, asset)) =>
        (match NamedProxyProfile(policy.rules, name, asset)
         case Some(profile) => Rewrite(profile, name, headOnly)
         case None => Bypass)
      case None =>
        var bundle := JsBundleRequest(policy, path);
        var profile := if bundle.None? then None
                       else JsBundleProfileOf(policy.rules, bundle.value.0, bundle.value.1, bundle.value.2);
        if profile.Some? then Rewrite(profile.value, bundle.value.0, headOnly)
        else match StaticRequest(policy, path)
             case Some((extension, asset)) =>
               if ConsoleV3 in policy.rules then Rewrite(ConsoleV3Profile, extension, headOnly) else Bypass
             case None => Bypass
  }

  // The grammar.

  predicate NamedProxyPath(policy: RewritePolicy, path: string, name: string, asset: string) {
    path == policy.basePath + "/proxy/" + name + "/" + asset && name != "" && '/' !in name
  }

  /** The distribution directory is named like the extension, with or without `-frontend`. */
  predicate JsBundlePath(policy: RewritePolicy, path: string, extension: string, directory: string, asset: string) {
    && path == policy.basePath + "/jsbundles/" + extension + "/dist/" + directory + "/" + asset
    && (extension == directory || extension == directory + FRONTEND)
    && IsExtensionEnabled(policy, extension)
    && '/' !in asset && EndsIn(asset, ".js")
  }

  predicate StaticPath(policy: RewritePolicy, path: string, extension: string, asset: string) {
    && path == policy.basePath + "/extensions-static/" + extension + "/dist/v3dist/" + asset
    && IsExtensionEnabled(policy, extension)
    && exists suffix <- TEXT_SUFFIXES :: EndsIn(asset, suffix)
  }

  /** Which paths each profile is for; where two would do, the more specific one that is enabled. */
  ghost predicate Selects(policy: RewritePolicy, path: string, profile: Profile, extension: string) {
    var rules := policy.rules;
    match profile
    case Ys1000HtmlProfile =>
      && Ys1000Html in rules && extension == "ys1000"
      && (exists asset :: NamedProxyPath(policy, path, extension, asset))
    case KubekeyAssetProfile =>
      && KubekeyAssetJs in rules && extension == "kubekey"
      && (exists asset ::
            NamedProxyPath(policy, path, extension, asset) && "assets/" <= asset && EndsIn(asset, ".js"))
    case NamedProxyHtmlProfile =>
      && NamedProxyHtml in rules
      && (exists asset :: NamedProxyPath(policy, path, extension, asset) &&
                          (if extension == "ys1000" then Ys1000Html !in rules else !EndsIn(asset, ".js")))
    case Ys1000FrontendIndexProfile =>
      && FrontendIndexJsBundle in rules && extension == "ys1000-frontend"
      && JsBundlePath(policy, path, extension, extension, "index.js")
    case FrontendIndexProfile =>
      && FrontendIndexJsBundle in rules && EndsIn(extension, FRONTEND)
      && (exists directory :: JsBundlePath(policy, path, extension, directory, "index.js") &&
                              !(extension == "ys1000-frontend" && directory == extension))
    case JsBundleProfile =>
      && JsBundle in rules
      && (exists directory, asset :: JsBundlePath(policy, path, extension, directory, asset) &&
                                     !(FrontendIndexJsBundle in rules && EndsIn(extension, FRONTEND)
                                       && asset == "index.js"))
    case ConsoleV3Profile =>
      && ConsoleV3 in rules
      && (exists asset :: StaticPath(policy, path, extension, asset))
  }

  // The three kinds of request are read off the path as the grammar has it.

  lemma PrefixIsStripped(prefix: string, rest: string)
    ensures StripPrefix(prefix + rest, prefix) == Some(rest)
  {
  }

  /** The first occurrence of a separator is after a part that does not hold its first character. */
  lemma SplitIsFirst(a: string, pattern: string, b: string)
    requires pattern != "" && pattern[0] !in a
    ensures SplitOnce(a + pattern + b, pattern) == Some((a, b))
  {
    var s := a + pattern + b;
    assert IsAt(s, |a|, pattern);
    forall j: nat | j < |a| ensures !IsAt(s, j, pattern) {
      if IsAt(s, j, pattern) {
        assert s[j..j + |pattern|][0] == s[j] == a[j];
      }
    }
  }

  lemma PartBeforeSlash(s: string)
    ensures SplitOnce(s, "/").Some? ==> '/' !in SplitOnce(s, "/").value.0
  {
    if SplitOnce(s, "/").Some? {
      var i := IndexFrom(s, "/", 0).value;
      forall j | 0 <= j < i ensures s[..i][j] != '/' {
        assert !IsAt(s, j, "/") && s[j..j + 1] == [s[j]];
      }
    }
  }

  lemma SafeNamesHoldNoSlash(value: string)
    requires IsSafeExtensionName(value)
    ensures value != "" && '/' !in value
  {
  }

  lemma NamedProxyRequestIsPath(policy: RewritePolicy, path: string, name: string, asset: string)
    ensures NamedProxyRequest(policy, path) == Some((name, asset)) <==> NamedProxyPath(policy, path, name, asset)
  {
    hide SplitOnce;
    var root := policy.basePath + "/proxy/";
    if NamedProxyRequest(policy, path) == Some((name, asset)) {
      PartBeforeSlash(StripPrefix(path, root).value);
      assert path == root + (name + "/" + asset) == root + name + "/" + asset;
    }
    if NamedProxyPath(policy, path, name, asset) {
      assert path == root + (name + "/" + asset);
      PrefixIsStripped(root, name + "/" + asset);
      SplitIsFirst(name, "/", asset);
    }
  }

  lemma AssetIsBelowDirectory(extension: string, distribution: string, asset: string)
    requires '/' !in extension
    ensures JsBundleAssetPath(extension, distribution) == Some(asset) <==>
            distribution == extension + "/" + asset
            || exists directory :: extension == directory + FRONTEND && distribution == directory + "/" + asset
  {
    if JsBundleAssetPath(extension, distribution) == Some(asset) {
      FoundAssetIsBelow(extension, distribution, asset);
    }
    hide JsBundleAssetPath;
    if distribution == extension + "/" + asset {
      AssetIsFound(extension, extension, asset);
    } else if directory :| extension == directory + FRONTEND && distribution == directory + "/" + asset {
      AssetIsFound(extension, directory, asset);
    }
  }

  lemma FoundAssetIsBelow(extension: string, distribution: string, asset: string)
    requires JsBundleAssetPath(extension, distribution) == Some(asset)
    ensures distribution == extension + "/" + asset
            || exists directory :: extension == directory + FRONTEND && distribution == directory + "/" + asset
  {
    hide StripPrefix, StripSuffix;
    if StripPrefix(distribution, extension).Some?
       && StripPrefix(StripPrefix(distribution, extension).value, "/").Some? {
      assert distribution == extension + ("/" + asset) == extension + "/" + asset;
    } else {
      var directory := StripSuffix(extension, FRONTEND).value;
      assert distribution == directory + ("/" + asset) == directory + "/" + asset;
    }
  }

  lemma AssetIsFound(extension: string, directory: string, asset: string)
    requires '/' !in extension && (directory == extension || extension == directory + FRONTEND)
    ensures JsBundleAssetPath(extension, directory + "/" + asset) == Some(asset)
  {
    hide StripPrefix, StripSuffix;
    var distribution := directory + "/" + asset;
    assert distribution == directory + ("/" + asset);
    PrefixIsStripped(directory, "/" + asset);
    PrefixIsStripped("/", asset);
    if directory != extension {
      assert distribution[|directory|] == '/' && extension[|directory|] == '-';
      SuffixIsStripped(directory, FRONTEND);
    }
  }

  lemma SuffixIsStripped(rest: string, suffix: string)
    ensures StripSuffix(rest + suffix, suffix) == Some(rest)
  {
  }

  lemma JsBundleRequestIsPath(policy: RewritePolicy, path: string, extension: string, distribution: string,
                              asset: string)
    ensures JsBundleRequest(policy, path) == Some((extension, distribution, asset)) <==>
            exists directory :: JsBundlePath(policy, path, extension, directory, asset)
              && distribution == directory + "/" + asset
  {
    hide JsBundleRequest, JsBundlePath;
    if JsBundleRequest(policy, path) == Some((extension, distribution, asset)) {
      var directory := DirectoryOfRequest(policy, path, extension, distribution, asset);
    }
    if directory :| JsBundlePath(policy, path, extension, directory, asset) && distribution == directory + "/" + asset {
      PathIsJsBundleRequest(policy, path, extension, directory, asset);
    }
  }

  lemma DirectoryOfRequest(policy: RewritePolicy, path: string, extension: string, distribution: string, asset: string)
    returns (directory: string)
    requires JsBundleRequest(policy, path) == Some((extension, distribution, asset))
    ensures JsBundlePath(policy, path, extension, directory, asset) && distribution == directory + "/" + asset
  {
    hide SplitOnce, JsBundleAssetPath, IsSafeExtensionName, EndsIn;
    var root := policy.basePath + "/jsbundles/";
    SafeNamesHoldNoSlash(extension);
    AssetIsBelowDirectory(extension, distribution, asset);
    directory :| (directory == extension || extension == directory + FRONTEND)
      && distribution == directory + "/" + asset;
    assert root + (extension + "/dist/" + (directory + "/" + asset)) ==
           root + extension + "/dist/" + directory + "/" + asset;
  }

  lemma PathIsJsBundleRequest(policy: RewritePolicy, path: string, extension: string, directory: string, asset: string)
    requires JsBundlePath(policy, path, extension, directory, asset)
    ensures JsBundleRequest(policy, path) == Some((extension, directory + "/" + asset, asset))
  {
    hide SplitOnce, JsBundleAssetPath, IsSafeExtensionName, StripPrefix;
    var root, distribution := policy.basePath + "/jsbundles/", directory + "/" + asset;
    assert path == root + (extension + "/dist/" + distribution);
    PrefixIsStripped(root, extension + "/dist/" + distribution);
    SafeNamesHoldNoSlash(extension);
    SplitIsFirst(extension, "/dist/", distribution);
    AssetIsBelowDirectory(extension, distribution, asset);
    JsSuffixIsNotEmpty(asset);
  }

  lemma {:induction false} LastSegmentEndsAlike(s: string, suffix: string)
    requires suffix != "" && '/' !in suffix
    ensures EndsIn(LastSegment(s), suffix) <==> EndsIn(s, suffix)
    decreases |s|
  {
    if '/' in s && IndexFrom(s, "/", 0).Some? {
      var i := IndexFrom(s, "/", 0).value;
      var rest := s[i + 1..];
      assert s[i..i + 1] == "/" && s[i] == '/';
      LastSegmentEndsAlike(rest, suffix);
      if |suffix| <= |rest| {
        assert s[|s| - |suffix|..] == rest[|rest| - |suffix|..];
      } else if EndsIn(s, suffix) {
        assert s[|s| - |suffix|..][i - (|s| - |suffix|)] == '/';
      }
    }
  }

  lemma TextAssetsEndInTheirSuffix(asset: string)
    ensures IsTextAsset(asset) <==> exists suffix <- TEXT_SUFFIXES :: EndsIn(asset, suffix)
  {
    forall suffix <- TEXT_SUFFIXES ensures EndsIn(LastSegment(asset), suffix) <==> EndsIn(asset, suffix) {
      LastSegmentEndsAlike(asset, suffix);
    }
  }

  lemma StaticRequestIsPath(policy: RewritePolicy, path: string, extension: string, asset: string)
    ensures StaticRequest(policy, path) == Some((extension, asset)) <==> StaticPath(policy, path, extension, asset)
  {
    hide SplitOnce, IsSafeExtensionName, IsTextAsset;
    var root := policy.basePath + "/extensions-static/";
    TextAssetsEndInTheirSuffix(asset);
    if StaticRequest(policy, path) == Some((extension, asset)) {
      assert path == root + (extension + "/dist/v3dist/" + asset) == root + extension + "/dist/v3dist/" + asset;
    }
    if StaticPath(policy, path, extension, asset) {
      assert path == root + (extension + "/dist/v3dist/" + asset);
      PrefixIsStripped(root, extension + "/dist/v3dist/" + asset);
      SafeNamesHoldNoSlash(extension);
      SplitIsFirst(extension, "/dist/v3dist/", asset);
    }
  }

  /** A path lies below one of the three roots at most. */
  lemma RootsAreDisjoint(policy: RewritePolicy, path: string)
    ensures NamedProxyRequest(policy, path).Some? ==>
            JsBundleRequest(policy, path).None? && StaticRequest(policy, path).None?
    ensures JsBundleRequest(policy, path).Some? ==> StaticRequest(policy, path).None?
  {
    hide SplitOnce, JsBundleAssetPath, IsExtensionEnabled, IsTextAsset;
    RootCharacter(policy.basePath, "/proxy/", path);
    RootCharacter(policy.basePath, "/jsbundles/", path);
    RootCharacter(policy.basePath, "/extensions-static/", path);
  }

  lemma RootCharacter(base: string, root: string, path: string)
    requires |root| > 1
    ensures base + root <= path ==> |path| > |base| + 1 && path[|base| + 1] == root[1]
  {
    if base + root <= path {
      assert path[..|base + root|][|base| + 1] == (base + root)[|base| + 1];
    }
  }

  /** The router decides as the grammar says: soundness and completeness. */
  lemma DecideIsTheGrammar(policy: RewritePolicy, method_: string, path: string, profile: Profile, extension: string,
                           headOnly: bool)
    ensures Decide(policy, method_, path) == Rewrite(profile, extension, headOnly) <==>
            && policy.basePath != "" && IsRewritableMethod(method_) && headOnly == EqualIgnoringCase(method_, "HEAD")
            && Selects(policy, path, profile, extension)
  {
    hide NamedProxyRequest, JsBundleRequest, StaticRequest, NamedProxyPath, JsBundlePath, StaticPath,
      EqualIgnoringCase, EndsIn;
    RootsAreDisjoint(policy, path);
    if profile in {Ys1000HtmlProfile, KubekeyAssetProfile, NamedProxyHtmlProfile} {
      NamedProxyIsSelected(policy, path, profile, extension);
    } else if profile == ConsoleV3Profile {
      forall asset ensures StaticRequest(policy, path) == Some((extension, asset)) <==>
        StaticPath(policy, path, extension, asset) {
        StaticRequestIsPath(policy, path, extension, asset);
      }
    } else {
      JsBundleIsSelected(policy, path, profile, extension);
    }
  }

  lemma JsSuffixIsNotEmpty(asset: string)
    ensures EndsIn(asset, ".js") ==> asset != ""
  {
  }

  lemma NamedProxyIsSelected(policy: RewritePolicy, path: string, profile: Profile, name: string)
    requires profile in {Ys1000HtmlProfile, KubekeyAssetProfile, NamedProxyHtmlProfile}
    ensures Selects(policy, path, profile, name) <==>
            exists asset :: NamedProxyRequest(policy, path) == Some((name, asset))
                            && NamedProxyProfile(policy.rules, name, asset) == Some(profile)
  {
    hide NamedProxyRequest, NamedProxyPath, EndsIn;
    forall asset
      ensures NamedProxyRequest(policy, path) == Some((name, asset)) <==> NamedProxyPath(policy, path, name, asset)
      ensures EndsIn(asset, ".js") ==> asset != ""
    {
      NamedProxyRequestIsPath(policy, path, name, asset);
      JsSuffixIsNotEmpty(asset);
    }
    assert "ys1000" != "kubekey" by { assert "ys1000"[0] != "kubekey"[0]; }
  }

  lemma JsBundleIsSelected(policy: RewritePolicy, path: string, profile: Profile, extension: string)
    requires profile in {Ys1000FrontendIndexProfile, FrontendIndexProfile, JsBundleProfile}
    ensures Selects(policy, path, profile, extension) <==>
            exists distribution, asset :: JsBundleRequest(policy, path) == Some((extension, distribution, asset))
                            && JsBundleProfileOf(policy.rules, extension, distribution, asset) == Some(profile)
  {
    hide JsBundleRequest, JsBundlePath, EndsIn;
    if Selects(policy, path, profile, extension) {
      var directory, asset := SelectedBundle(policy, path, profile, extension);
      JsBundleRequestIsPath(policy, path, extension, directory + "/" + asset, asset);
      assert JsBundlePath(policy, path, extension, directory, asset);
      IndexOfYs1000(directory, asset);
    }
    if distribution, asset :| JsBundleRequest(policy, path) == Some((extension, distribution, asset))
                              && JsBundleProfileOf(policy.rules, extension, distribution, asset) == Some(profile) {
      JsBundleRequestIsPath(policy, path, extension, distribution, asset);
      var directory :| JsBundlePath(policy, path, extension, directory, asset)
        && distribution == directory + "/" + asset;
      IndexOfYs1000(directory, asset);
    }
  }

  lemma IndexOfYs1000(directory: string, asset: string)
    ensures asset == "index.js" ==>
            (directory + "/" + asset == "ys1000-frontend/index.js" <==> directory == "ys1000-frontend")
    ensures EndsIn("ys1000-frontend", FRONTEND)
  {
    var whole := "ys1000-frontend/index.js";
    if asset == "index.js" && directory + "/" + asset == whole {
      assert |directory| == 15;
      assert directory == whole[..15] == "ys1000-frontend";
    }
    assert "ys1000-frontend"[6..] == FRONTEND;
    assert "ys1000-frontend" + "/" + "index.js" == whole;
  }

  lemma SelectedBundle(policy: RewritePolicy, path: string, profile: Profile, extension: string)
    returns (directory: string, asset: string)
    requires profile in {Ys1000FrontendIndexProfile, FrontendIndexProfile, JsBundleProfile}
    requires Selects(policy, path, profile, extension)
    ensures JsBundlePath(policy, path, extension, directory, asset)
    ensures match profile
            case Ys1000FrontendIndexProfile =>
              FrontendIndexJsBundle in policy.rules && extension == directory == "ys1000-frontend"
                && asset == "index.js"
            case FrontendIndexProfile =>
              && FrontendIndexJsBundle in policy.rules && EndsIn(extension, FRONTEND) && asset == "index.js"
              && !(extension == "ys1000-frontend" && directory == extension)
            case _ =>
              JsBundle in policy.rules
                && !(FrontendIndexJsBundle in policy.rules && EndsIn(extension, FRONTEND) && asset == "index.js")
  {
    hide JsBundlePath, EndsIn;
    if profile == Ys1000FrontendIndexProfile {
      directory, asset := extension, "index.js";
    } else if profile == FrontendIndexProfile {
      asset := "index.js";
      directory :| JsBundlePath(policy, path, extension, directory, "index.js")
        && !(extension == "ys1000-frontend" && directory == extension);
    } else {
      directory, asset :| JsBundlePath(policy, path, extension, directory, asset) &&
                          !(FrontendIndexJsBundle in policy.rules && EndsIn(extension, FRONTEND)
                            && asset == "index.js");
    }
  }

  // What follows for operators of the proxy.

  /** Enabling more rules never stops a rewrite; it can only make its profile more specific. */
  lemma MoreRulesOnlySpecialise(policy: RewritePolicy, more: set<RewriteRule>, method_: string, path: string)
    requires policy.rules <= more
    ensures var before, after := Decide(policy, method_, path), Decide(policy.(rules := more), method_, path);
            before.Rewrite? ==>
              && after.Rewrite?
              && (|| after.profile == before.profile
                  || (after.profile == Ys1000HtmlProfile && before.profile == NamedProxyHtmlProfile)
                  || (after.profile in {FrontendIndexProfile, Ys1000FrontendIndexProfile}
                      && before.profile == JsBundleProfile))
              && after.extension == before.extension && after.headOnly == before.headOnly
  {
    hide NamedProxyRequest, JsBundleRequest, StaticRequest, EqualIgnoringCase, EndsIn;
    RequestsIgnoreRules(policy, more, path);
    RootsAreDisjoint(policy, path);
  }

  lemma RequestsIgnoreRules(policy: RewritePolicy, more: set<RewriteRule>, path: string)
    ensures var other := policy.(rules := more);
            && NamedProxyRequest(other, path) == NamedProxyRequest(policy, path)
            && JsBundleRequest(other, path) == JsBundleRequest(policy, path)
            && StaticRequest(other, path) == StaticRequest(policy, path)
  {
  }

  // The gate, told without the router: which extensions, which methods, which paths.

  /** Letters and digits, besides which a name may hold hyphens, underscores and dots behind its first character. */
  predicate IsNameChar(c: char, first: bool) {
    || 'a' <= c <= 'z' || 'A' <= c <= 'Z' || '0' <= c <= '9'
    || (!first && (c == '-' || c == '_' || c == '.'))
  }

  lemma SafeNamesAre(value: string)
    ensures IsSafeExtensionName(value) <==>
            1 <= |value| <= 128 && forall i :: 0 <= i < |value| ==> IsNameChar(value[i], i == 0)
  {
    if IsSafeExtensionName(value) {
      forall i | 0 <= i < |value| ensures IsNameChar(value[i], i == 0) {
        assert IsAlphanumeric(value[i]) || value[i] in {'-', '_', '.'};
      }
    }
    if 1 <= |value| <= 128 && forall i :: 0 <= i < |value| ==> IsNameChar(value[i], i == 0) {
      forall i | 0 <= i < |value| ensures IsAlphanumeric(value[i]) || value[i] in {'-', '_', '.'} {
        assert IsNameChar(value[i], i == 0);
      }
      assert IsNameChar(value[0], true);
    }
  }

  /** Named proxies apart, only extensions are rewritten that are not disabled, that are on the list if there is
      one, and whose names are short and harmless. */
  lemma RewrittenExtensionsAreEnabled(policy: RewritePolicy, method_: string, path: string)
    requires Decide(policy, method_, path).Rewrite?
    requires Decide(policy, method_, path).profile !in {Ys1000HtmlProfile, NamedProxyHtmlProfile, KubekeyAssetProfile}
    ensures var e := Decide(policy, method_, path).extension;
            && e !in policy.disabled
            && (policy.extensions.Allowlist? ==> e in policy.extensions.extensions)
            && 1 <= |e| <= 128 && forall i :: 0 <= i < |e| ==> IsNameChar(e[i], i == 0)
  {
    hide NamedProxyRequest, EqualIgnoringCase, SplitOnce, JsBundleAssetPath, IsSafeExtensionName, IsTextAsset;
    SafeNamesAre(Decide(policy, method_, path).extension);
  }

  predicate IsGet(m: string) {
    |m| == 3 && m[0] in {'G', 'g'} && m[1] in {'E', 'e'} && m[2] in {'T', 't'}
  }

  predicate IsHead(m: string) {
    |m| == 4 && m[0] in {'H', 'h'} && m[1] in {'E', 'e'} && m[2] in {'A', 'a'} && m[3] in {'D', 'd'}
  }

  /** GET and HEAD are rewritten, in any case, and no other method; HEAD without the body. */
  lemma MethodsAre(method_: string)
    ensures EqualIgnoringCase(method_, "HEAD") <==> IsHead(method_)
    ensures IsRewritableMethod(method_) <==> IsGet(method_) || IsHead(method_)
    ensures forall policy, path ::
              Decide(policy, method_, path).Rewrite? ==>
                (IsGet(method_) || IsHead(method_)) && Decide(policy, method_, path).headOnly == IsHead(method_)
  {
    hide NamedProxyRequest, JsBundleRequest, StaticRequest, NamedProxyProfile, JsBundleProfileOf;
  }

  lemma Stem(s: string, suffix: string) returns (stem: string)
    requires EndsIn(s, suffix)
    ensures s == stem + suffix
  {
    stem := s[..|s| - |suffix|];
  }

  /** A console asset that is rewritten lies below the distribution of its extension and is of one of six kinds. */
  lemma RewrittenAssetIsText(policy: RewritePolicy, method_: string, path: string)
    returns (stem: string, suffix: string)
    requires Decide(policy, method_, path).Rewrite? && Decide(policy, method_, path).profile == ConsoleV3Profile
    ensures suffix in [".js", ".mjs", ".css", ".json", ".html", ".htm"] && ConsoleV3 in policy.rules
    ensures var e := Decide(policy, method_, path).extension;
            path == policy.basePath + "/extensions-static/" + e + "/dist/v3dist/" + (stem + suffix)
  {
    hide IsExtensionEnabled, EndsIn, Decide;
    var d := Decide(policy, method_, path);
    DecideIsTheGrammar(policy, method_, path, ConsoleV3Profile, d.extension, d.headOnly);
    var asset :| StaticPath(policy, path, d.extension, asset);
    suffix :| suffix in TEXT_SUFFIXES && EndsIn(asset, suffix);
    stem := Stem(asset, suffix);
  }

  /** A bundle that is rewritten is a script right below the distribution of its extension. */
  lemma RewrittenBundleIsScript(policy: RewritePolicy, method_: string, path: string)
    returns (directory: string, stem: string)
    requires Decide(policy, method_, path).Rewrite?
    requires Decide(policy, method_, path).profile
             in {JsBundleProfile, FrontendIndexProfile, Ys1000FrontendIndexProfile}
    ensures '/' !in stem
    ensures var e := Decide(policy, method_, path).extension;
            && path == policy.basePath + "/jsbundles/" + e + "/dist/" + directory + "/" + (stem + ".js")
            && (e == directory || e == directory + "-frontend")
  {
    hide IsExtensionEnabled, EndsIn, Decide;
    var d := Decide(policy, method_, path);
    DecideIsTheGrammar(policy, method_, path, d.profile, d.extension, d.headOnly);
    var asset;
    directory, asset := SelectedBundle(policy, path, d.profile, d.extension);
    stem := Stem(asset, ".js");
    assert forall i :: 0 <= i < |stem| ==> stem[i] == asset[i];
  }

  lemma EndsInMeans(stem: string, suffix: string)
    ensures EndsIn(stem + suffix, suffix)
  {
  }

  lemma EnabledExtension(policy: RewritePolicy, e: string)
    requires e !in policy.disabled && (policy.extensions.Allowlist? ==> e in policy.extensions.extensions)
    requires 1 <= |e| <= 128 && forall i :: 0 <= i < |e| ==> IsNameChar(e[i], i == 0)
    ensures IsExtensionEnabled(policy, e)
  {
    SafeNamesAre(e);
  }

  /** Every script right below the distribution of an enabled extension is rewritten, the index of a frontend
      as such when there is a rule for it. */
  lemma EnabledBundlesAreRewritten(policy: RewritePolicy, method_: string, path: string, e: string, directory: string,
                                   stem: string)
    requires policy.basePath != "" && (IsGet(method_) || IsHead(method_))
    requires path == policy.basePath + "/jsbundles/" + e + "/dist/" + directory + "/" + (stem + ".js") && '/' !in stem
    requires e == directory || e == directory + "-frontend"
    requires e !in policy.disabled && (policy.extensions.Allowlist? ==> e in policy.extensions.extensions)
    requires 1 <= |e| <= 128 && forall i :: 0 <= i < |e| ==> IsNameChar(e[i], i == 0)
    ensures var isIndex := stem == "index" && EndsIn(e, "-frontend") && FrontendIndexJsBundle in policy.rules;
            isIndex || JsBundle in policy.rules ==>
              Decide(policy, method_, path) ==
              Rewrite(if !isIndex then JsBundleProfile
                      else if e == directory == "ys1000-frontend" then Ys1000FrontendIndexProfile
                      else FrontendIndexProfile, e, IsHead(method_))
  {
    MethodsAre(method_);
    hide IsSafeExtensionName, Decide, IsNameChar, EqualIgnoringCase, IsRewritableMethod, IsGet, IsHead;
    EnabledExtension(policy, e);
    EndsInMeans(stem, ".js");
    NoSlashBehind(stem);
    assert JsBundlePath(policy, path, e, directory, stem + ".js");
    IndexStem(stem);
    var isIndex := stem == "index" && EndsIn(e, "-frontend") && FrontendIndexJsBundle in policy.rules;
    var profile := if !isIndex then JsBundleProfile
                   else if e == directory == "ys1000-frontend" then Ys1000FrontendIndexProfile
                   else FrontendIndexProfile;
    if isIndex || JsBundle in policy.rules {
      DecideIsTheGrammar(policy, method_, path, profile, e, IsHead(method_));
    }
  }

  lemma NoSlashBehind(stem: string)
    requires '/' !in stem
    ensures '/' !in stem + ".js"
  {
  }

  lemma IndexStem(stem: string)
    ensures stem + ".js" == "index.js" <==> stem == "index"
  {
    assert "index" + ".js" == "index.js";
    if stem + ".js" == "index.js" {
      assert |stem| == 5;
      assert stem == (stem + ".js")[..5];
      assert "index.js"[..5] == "index";
    }
  }

  /** Every text asset below the distribution of an enabled console extension is rewritten. */
  lemma EnabledAssetsAreRewritten(policy: RewritePolicy, method_: string, path: string, e: string, stem: string,
                                  suffix: string)
    requires policy.basePath != "" && (IsGet(method_) || IsHead(method_)) && ConsoleV3 in policy.rules
    requires path == policy.basePath + "/extensions-static/" + e + "/dist/v3dist/" + (stem + suffix)
    requires suffix in [".js", ".mjs", ".css", ".json", ".html", ".htm"]
    requires e !in policy.disabled && (policy.extensions.Allowlist? ==> e in policy.extensions.extensions)
    requires 1 <= |e| <= 128 && forall i :: 0 <= i < |e| ==> IsNameChar(e[i], i == 0)
    ensures Decide(policy, method_, path) == Rewrite(ConsoleV3Profile, e, IsHead(method_))
  {
    MethodsAre(method_);
    hide IsSafeExtensionName, Decide, IsNameChar, EqualIgnoringCase, IsRewritableMethod, IsGet, IsHead;
    EnabledExtension(policy, e);
    EndsInMeans(stem, suffix);
    assert suffix in TEXT_SUFFIXES;
    assert StaticPath(policy, path, e, stem + suffix);
    DecideIsTheGrammar(policy, method_, path, ConsoleV3Profile, e, IsHead(method_));
  }

  // The same for named proxies.

  /** What is between two ends that do not overlap. */
  lemma Middle(s: string, a: string, b: string) returns (m: string)
    requires a <= s && EndsIn(s, b) && |a| + |b| <= |s|
    ensures s == a + m + b
  {
    m := s[|a|..|s| - |b|];
  }

  lemma AssetsAreLong(asset: string)
    requires "assets/" <= asset && EndsIn(asset, ".js")
    ensures |asset| >= 10
  {
    var n := |asset|;
    assert asset[n - 3..] == ".js";
    assert asset[n - 3] == '.' && asset[n - 2] == 'j';
    assert forall k :: 0 <= k < 7 ==> asset[k] == "assets/"[k];
  }

  /** Of the kubekey proxy exactly the scripts below its assets are rewritten as such. */
  lemma KubekeyAssetsAre(policy: RewritePolicy, method_: string, path: string, e: string, headOnly: bool)
    requires policy.basePath != "" && (IsGet(method_) || IsHead(method_)) && KubekeyAssetJs in policy.rules
    ensures Decide(policy, method_, path) == Rewrite(KubekeyAssetProfile, e, headOnly) <==>
            && e == "kubekey" && headOnly == IsHead(method_)
            && exists stem :: path == policy.basePath + "/proxy/" + "kubekey" + "/" + ("assets/" + stem + ".js")
  {
    MethodsAre(method_);
    hide Decide, EndsIn, IsGet, IsHead, EqualIgnoringCase, IsRewritableMethod;
    DecideIsTheGrammar(policy, method_, path, KubekeyAssetProfile, e, headOnly);
    if Decide(policy, method_, path) == Rewrite(KubekeyAssetProfile, e, headOnly) {
      var asset :| NamedProxyPath(policy, path, e, asset) && "assets/" <= asset && EndsIn(asset, ".js");
      AssetsAreLong(asset);
      var stem := Middle(asset, "assets/", ".js");
    }
    if stem :| path == policy.basePath + "/proxy/" + "kubekey" + "/" + ("assets/" + stem + ".js") {
      EndsInMeans("assets/" + stem, ".js");
      assert NamedProxyPath(policy, path, "kubekey", "assets/" + stem + ".js");
    }
  }

  /** Every other path of a named proxy is a page: of ys1000 with its metadata when there is a rule for that, and
      of any other name unless it is a script. */
  lemma PagesAreRewritten(policy: RewritePolicy, method_: string, path: string, name: string, asset: string)
    requires policy.basePath != "" && (IsGet(method_) || IsHead(method_)) && NamedProxyHtml in policy.rules
    requires path == policy.basePath + "/proxy/" + name + "/" + asset && name != "" && '/' !in name
    ensures name == "ys1000" ==>
              Decide(policy, method_, path) ==
              Rewrite(if Ys1000Html in policy.rules then Ys1000HtmlProfile else NamedProxyHtmlProfile, name,
                      IsHead(method_))
    ensures name != "ys1000" ==>
              (Decide(policy, method_, path) == Rewrite(NamedProxyHtmlProfile, name, IsHead(method_)) <==>
               forall stem :: asset != stem + ".js")
  {
    MethodsAre(method_);
    hide Decide, EndsIn, IsGet, IsHead, EqualIgnoringCase, IsRewritableMethod;
    assert NamedProxyPath(policy, path, name, asset);
    NamedProxyRequestIsPath(policy, path, name, asset);
    DecideIsTheGrammar(policy, method_, path, Ys1000HtmlProfile, name, IsHead(method_));
    DecideIsTheGrammar(policy, method_, path, NamedProxyHtmlProfile, name, IsHead(method_));
    forall other | NamedProxyPath(policy, path, name, other) ensures other == asset {
      NamedProxyRequestIsPath(policy, path, name, other);
    }
    if EndsIn(asset, ".js") {
      var stem := Stem(asset, ".js");
    }
    if stem :| asset == stem + ".js" {
      EndsInMeans(stem, ".js");
    }
  }
}
