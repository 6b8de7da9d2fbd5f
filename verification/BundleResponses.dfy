/** What a JavaScript bundle becomes, for every base path the configuration accepts. */
module BundleResponses {
  import opened Bytes
  import opened LiteralSpec
  import opened Stages
  import opened Responses
  import opened Policy
  import opened Profiles
  import opened BasePath
  import opened ExactIdempotence
  import opened Occurrences
  import opened ProfileIdempotence
  import AppendIdempotence
  import MigMeta

  /** The beginning of a URL on the host that served the page. */
  const HOST: Text := Ascii("`//${window.location.host}")

  /** All URLs on the host are below the base path; one that was stays as it is. */
  function AllBelow(base: Text, pieces: seq<Text>): Text
    requires base != []
  {
    if pieces == [] then []
    else HOST + (if base[1..] + Ascii("/") <= pieces[0] then Ascii("/") else base + Ascii("/"))
         + pieces[0] + AllBelow(base, pieces[1..])
  }

  lemma HostSlash()
    ensures AppendIdempotence.HOST_LITERAL == HOST + Ascii("/") && OnlyBeginsWith(HOST + Ascii("/"), BACKTICK)
  {
    var s := "`//${window.location.host}/";
    assert s == "`//${window.location.host}" + "/";
    assert |s| == 27 && s[0] == '`' && forall k :: 0 < k < 27 ==> s[k] != '`';
    assert AsciiByte('`') == BACKTICK;
    forall k | 0 < k < 27 ensures Ascii(s)[k] != BACKTICK {
      AsciiByteIsCode(s[k]);
      AsciiByteIsCode('`');
    }
  }

  /** The pieces behind the literal, once with the slash at its end and once with the slash of the base path. */
  lemma {:induction false} InsertedIsBelow(base: Text, pieces: seq<Text>)
    requires |base| > 0 && base[0] == SLASH
    ensures Inserted(HOST + Ascii("/"), base[1..] + Ascii("/"), pieces) == AllBelow(base, pieces)
    decreases |pieces|
  {
    SlashIsAscii();
    hide Ascii, HOST;
    if pieces != [] {
      InsertedStart(HOST + Ascii("/"), base[1..] + Ascii("/"), pieces);
      InsertedIsBelow(base, pieces[1..]);
      var rest := AllBelow(base, pieces[1..]);
      assert base == Ascii("/") + base[1..];
      SameText(HOST, Ascii("/"), base[1..], Ascii("/"));
      BelowStart(base, pieces);
    }
  }

  lemma SlashIsAscii()
    ensures Ascii("/") == [SLASH]
  {
    assert AsciiByte('/') == SLASH;
  }

  lemma SameText(a: Text, b: Text, c: Text, d: Text)
    ensures (a + b) + (c + d) == a + ((b + c) + d)
  {
  }

  lemma BelowStart(base: Text, pieces: seq<Text>)
    requires base != [] && pieces != []
    ensures AllBelow(base, pieces) ==
            (HOST + if base[1..] + Ascii("/") <= pieces[0] then Ascii("/") else base + Ascii("/"))
            + (pieces[0] + AllBelow(base, pieces[1..]))
  {
    hide HOST, Ascii;
    Reassociate(HOST + (if base[1..] + Ascii("/") <= pieces[0] then Ascii("/") else base + Ascii("/")),
                pieces[0], AllBelow(base, pieces[1..]));
  }

  lemma BundleStageIs(base: Text)
    requires |base| > 1 && base[0] == SLASH && base[1] != SLASH
    ensures HOST + Ascii("/") != []
    ensures BundleStage(base) == LiteralStage(Appending(HOST + Ascii("/"), base[1..] + Ascii("/")))
  {
    HostSlash();
    hide Ascii, HOST, AppendIdempotence.HOST_LITERAL;
    assert TrimStartSlashes(base[1..]) == base[1..];
  }

  predicate IsBundle(profile: Profile) {
    profile in {JsBundleProfile, FrontendIndexProfile, Ys1000FrontendIndexProfile}
  }

  lemma FirstStage(profile: Profile, base: Text, name: Text, codec: MigMeta.Codec)
    requires IsBundle(profile) && IsText(base) && IsText(name)
    ensures ProfileSpecs(profile, base, name, codec)[0] == BundleStage(base)
    ensures !profile.Ys1000FrontendIndexProfile? ==> ProfileSpecs(profile, base, name, codec) == [BundleStage(base)]
  {
    hide IsText, ProfileSpecs, BundleStage;
    BundleSpecs(base, name, codec);
    YsIndexSpecs(base, name, codec);
  }

  lemma NoBacktick(base: Text)
    requires BACKTICK !in base && base != []
    ensures BACKTICK !in base[1..] + Ascii("/")
  {
    SlashIsAscii();
    assert SLASH != BACKTICK;
  }

  lemma BundleRuns(base: Text, front: Text, pieces: seq<Text>)
    requires |base| > 1 && base[0] == SLASH && base[1] != SLASH && BACKTICK !in base
    requires HoldNone(HOST + Ascii("/"), front, pieces)
    ensures BundleStage(base).Run(front + Joined(HOST + Ascii("/"), pieces)) == front + AllBelow(base, pieces)
  {
    BundleStageIs(base);
    HostSlash();
    NoBacktick(base);
    hide Ascii, HOST, OnlyBeginsWith, HoldNone, BundleStage, Joined, AllBelow, Inserted, Substitute;
    InsertedBetweenPieces(HOST + Ascii("/"), BACKTICK, base[1..] + Ascii("/"), front, pieces);
    InsertedIsBelow(base, pieces);
  }

  /** In a bundle the base path is inserted behind every host it does not follow yet, and nothing else changes. */
  lemma HostsAreSentBelow(profile: Profile, base: Text, name: Text, codec: MigMeta.Codec, front: Text,
                          pieces: seq<Text>)
    requires IsBundle(profile) && IsBasePath(base) && base != [] && IsText(name)
    requires HoldNone(HOST + Ascii("/"), front, pieces)
    ensures IsText(base)
    ensures var body, specs := front + Joined(HOST + Ascii("/"), pieces), ProfileSpecs(profile, base, name, codec);
            && specs[0].Run(body) == front + AllBelow(base, pieces)
            && (profile != Ys1000FrontendIndexProfile ==> Compose(specs, body) == front + AllBelow(base, pieces))
  {
    hide *;
    BasePathIsText(base);
    BasePathBegins(base);
    BundleRuns(base, front, pieces);
    FirstStage(profile, base, name, codec);
    ComposeOne(BundleStage(base), front + Joined(HOST + Ascii("/"), pieces));
  }

  /** A URL on the host becomes one below the base path. */
  lemma HostIsSentBelow(profile: Profile, base: Text, name: Text, codec: MigMeta.Codec, before: Text, after: Text)
    requires IsBundle(profile) && IsBasePath(base) && base != [] && IsText(name)
    requires !Occurs(HOST + Ascii("/"), before) && !Occurs(HOST + Ascii("/"), after)
    requires !(base[1..] + Ascii("/") <= after)
    ensures IsText(base)
    ensures ProfileSpecs(profile, base, name, codec)[0].Run(before + (HOST + Ascii("/")) + after) ==
            before + (HOST + base + Ascii("/")) + after
  {
    hide *;
    var s := HOST + Ascii("/");
    OnePiece(s, base, before, after);
    HostsAreSentBelow(profile, base, name, codec, before, [after]);
  }

  lemma OnePiece(s: Text, base: Text, before: Text, after: Text)
    requires s == HOST + Ascii("/") && base != [] && !(base[1..] + Ascii("/") <= after)
    ensures before + Joined(s, [after]) == before + s + after
    ensures before + AllBelow(base, [after]) == before + (HOST + base + Ascii("/")) + after
    ensures !Occurs(s, before) && !Occurs(s, after) ==> HoldNone(s, before, [after])
  {
    hide HOST, Ascii, Occurs;
    assert [after][1..] == [];
    assert Joined(s, []) == [] && AllBelow(base, []) == [];
    assert HOST + (base + Ascii("/")) == HOST + base + Ascii("/");
  }

  // The ys1000 index also holds proxy roots in quotes.

  /** The stage for roots in this quote. */
  function QuoteStage(c: char): nat {
    if c == '"' then 1 else 2
  }

  lemma QuotedStageIs(c: char, base: Text, name: Text, codec: MigMeta.Codec)
    requires (c == '"' || c == '\'') && IsText(base) && IsText(name)
    ensures |ProfileSpecs(Ys1000FrontendIndexProfile, base, name, codec)| == 3
    ensures ProfileSpecs(Ys1000FrontendIndexProfile, base, name, codec)[QuoteStage(c)] ==
            QuotedStage(AsciiByte(c), base)
  {
    assert AsciiByte('"') == DOUBLE_QUOTE && AsciiByte('\'') == SINGLE_QUOTE;
    hide IsText, ProfileSpecs, QuotedStage, AsciiByte, BundleStage;
    YsIndexSpecs(base, name, codec);
  }

  lemma QuotedStageRuns(q: Byte, base: Text, body: Text)
    ensures var root := Ascii("/proxy/ys1000/");
            && [q] + root + [q] != []
            && QuotedStage(q, base).Run(body) ==
               Rewritten(Replacing([q] + root + [q], [q] + base + root + [q]), body)
  {
    assert YS1000_ROOT == Ascii("/proxy/ys1000/");
    hide Ascii, YS1000_ROOT, Substitute;
    Reassociate([q], base, YS1000_ROOT);
  }

  /** A proxy root in quotes gets the base path. */
  lemma QuotedRootIsPrefixed(c: char, base: Text, name: Text, codec: MigMeta.Codec, before: Text, after: Text)
    requires (c == '"' || c == '\'') && IsText(base) && IsText(name)
    requires var quote := [AsciiByte(c)];
             var source := quote + Ascii("/proxy/ys1000/") + quote;
             NoneBefore(source, before + source + after, |before|)
    ensures |ProfileSpecs(Ys1000FrontendIndexProfile, base, name, codec)| == 3
    ensures var quote, root := [AsciiByte(c)], Ascii("/proxy/ys1000/");
            var stage := ProfileSpecs(Ys1000FrontendIndexProfile, base, name, codec)[QuoteStage(c)];
            stage.Run(before + (quote + root + quote) + after) ==
            before + (quote + base + root + quote) + stage.Run(after)
  {
    hide *;
    var quote, root := [AsciiByte(c)], Ascii("/proxy/ys1000/");
    QuotedStageIs(c, base, name, codec);
    QuotedStageRuns(AsciiByte(c), base, before + (quote + root + quote) + after);
    QuotedStageRuns(AsciiByte(c), base, after);
    FirstReplaced(quote + root + quote, quote + base + root + quote, before, after);
  }
}
