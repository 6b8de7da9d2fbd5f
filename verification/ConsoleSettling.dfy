/** Console responses settle: after one pass neither the prefixes nor the rewritten code change again. */
module ConsoleSettling {
  import opened Bytes
  import opened LiteralSpec
  import opened ExpressionSpec
  import opened Stages
  import opened Profiles
  import opened PrependIdempotence
  import opened StaticPrefixes
  import opened StageEffects
  import opened CodeTests
  import opened ExactRules
  import opened MemberRules
  import opened IdentifierRules
  import opened ConsoleRewrites

  // The static root does not begin in what the stages write.

  lemma RootBegins()
    ensures Ascii("/e") <= STATIC_ROOT && |STATIC_ROOT| == 19 && STATIC_ROOT[0] == SLASH
    ensures forall k :: 0 < k < 18 ==> STATIC_ROOT[k] != SLASH
  {
    StaticRootSlashes();
    assert "/e" == "/extensions-static/"[..2];
    assert STATIC_ROOT[..2] == Ascii("/e");
    hide STATIC_ROOT, Ascii;
  }

  lemma RootHasNoGuard()
    ensures forall b <- STATIC_ROOT :: !IsGuard(b)
  {
    var s := "/extensions-static/";
    assert Lacks(s, ' ') && Lacks(s, '"') && Lacks(s, '\'');
    AsciiLacks(s, ' ');
    AsciiLacks(s, '"');
    AsciiLacks(s, '\'');
    assert AsciiByte(' ') == 0x20 && AsciiByte('"') == DOUBLE_QUOTE && AsciiByte('\'') == SINGLE_QUOTE;
    hide Ascii, AsciiByte;
  }

  lemma RootHas(literal: string)
    requires NoWord("/e", literal)
    ensures NoStart(STATIC_ROOT, Ascii(literal))
  {
    RootBegins();
    hide STATIC_ROOT;
    WordNoStart(STATIC_ROOT, "/e", "/e", literal);
  }

  /** In a base path followed by a slash or the end of a string it would be there as whole segments. */
  lemma RootBeforeText(base: Text, x: Text)
    requires !Occurs(STATIC_ROOT, base + [SLASH]) && NoStart(STATIC_ROOT, x)
    requires x != [] && (IsGuard(x[0]) || x[0] == SLASH)
    ensures NoStart(STATIC_ROOT, base + x)
  {
    RootBegins();
    hide At, NoStart, STATIC_ROOT, IsGuard;
    var r := STATIC_ROOT;
    forall t: nat, rest: Text | t < |base| ensures !At(base + x + rest, t, r) {
      if At(base + x + rest, t, r) {
        NoRootInBase(base, x[0], x[1..] + rest, t);
        assert base + x + rest == base + [x[0]] + (x[1..] + rest);
      }
    }
    forall t: nat, rest: Text | |base| <= t < |base + x| ensures !At(base + x + rest, t, r) {
      StartsNowhere(r, x, t - |base|, rest);
      Reassociate(base, x, rest);
      assert (base + x + rest)[|base|..] == x + rest;
      AtShifts(base + x + rest, |base|, t - |base|, r);
    }
    NoStartWhen(r, base + x);
  }

  lemma NoStartWhen(v: Text, x: Text)
    requires forall t: nat, rest: Text :: t < |x| ==> !At(x + rest, t, v)
    ensures NoStart(v, x)
  {
  }

  lemma NoRootInBase(base: Text, b: Byte, rest: Text, t: nat)
    requires !Occurs(STATIC_ROOT, base + [SLASH]) && t < |base| && (IsGuard(b) || b == SLASH)
    ensures !At(base + [b] + rest, t, STATIC_ROOT)
  {
    RootBegins();
    RootHasNoGuard();
    hide At, STATIC_ROOT, IsGuard;
    var r, text := STATIC_ROOT, base + [b] + rest;
    if At(text, t, r) {
      if t + |r| <= |base| {
        assert text == base + ([b] + rest);
        AtIsStable(base, [b] + rest, t, r);
        AtIsStable(base, [SLASH], t, r);
      } else {
        AtHasByte(text, t, r, |base|);
        assert text[|base|] == b;
        assert r[|base| - t] in r;
        assert b == SLASH && t + |r| == |base| + 1;
        AtIsStable(base + [SLASH], rest, t, r);
      }
      OccursAt(base + [SLASH], t, r);
    }
  }

  lemma FollowersOfBase(x: Text)
    requires FollowsBase(x) || FollowsUrl(x)
    ensures x != [] && (IsGuard(x[0]) || x[0] == SLASH)
  {
    assert AsciiByte('"') == DOUBLE_QUOTE && AsciiByte('\'') == SINGLE_QUOTE && AsciiByte('/') == SLASH;
    assert Ascii("\"||")[0] == DOUBLE_QUOTE && Ascii("/\")")[0] == SLASH && Ascii("/\".")[0] == SLASH;
    assert Ascii("' ")[0] == SINGLE_QUOTE && Ascii("/'")[0] == SLASH;
    hide AsciiByte;
  }

  lemma RootIsForeign(id: Text, base: Text, end: string)
    requires !Occurs(STATIC_ROOT, base + [SLASH]) && SLASH !in id && (end == "" || end == "}")
    ensures IsForeign(STATIC_ROOT, id, base, end)
  {
    RootFitsNowhere();
    RootBegins();
    var r, w := STATIC_ROOT, "/e";
    assert ArePlain(w);
    hide Ascii, NoStart, NoWord, ArePlain, FollowsName, FollowsBase, AsciiByte, STATIC_ROOT, IsGuard;
    RootHas("=");
    RootHas("===\"");
    RootHas("\"||");
    RootHas(".startsWith(\"");
    RootHas("/\")?");
    RootHas(":\"");
    RootHas("/\".concat(");
    CloseNoStart(r, w, w, end);
    RootHas(".replace(/\\/\\/+/,\"/\"),");
    NoStartWithout(r, id);
    forall x | FollowsName(x) && NoStart(r, x) ensures NoStart(r, id + x) {
      NoStartConcat(r, id, x);
    }
    forall x | FollowsBase(x) && NoStart(r, x) ensures NoStart(r, base + x) {
      FollowersOfBase(x);
      RootBeforeText(base, x);
    }
  }

  lemma RootFitsNowhere()
    ensures var w := "/e";
            && NoWord(w, "=") && NoWord(w, "===\"") && NoWord(w, "\"||") && NoWord(w, ".startsWith(\"")
            && NoWord(w, "/\")?") && NoWord(w, ":\"") && NoWord(w, "/\".concat(")
            && NoWord(w, ".replace(/^\\/+/,\"\")))") && NoWord(w, "}") && NoWord(w, ".replace(/\\/\\/+/,\"/\"),")
  {
  }

  // What begins with the static root does not touch what the stages write.

  /** The static root, or a source that begins with it. */
  predicate IsRooted(v: Text) {
    && STATIC_ROOT <= v && v != [] && v[|v| - 1] == SLASH
    && AsciiByte(' ') !in v && AsciiByte(':') !in v && AsciiByte('(') !in v
  }

  lemma RootedIsShy(v: Text, a: string, tail: Text, d: nat)
    requires IsRooted(v) && d < |a| && a[d] in [' ', ':', '('] && Lacks(a[..d], '/')
    requires NoWord("/e", a) && NoStart(STATIC_ROOT, tail)
    ensures Shy(v, Ascii(a) + tail, 0)
  {
    RootHas(a);
    AsciiLacks(a[..d], '/');
    assert AsciiByte('/') == SLASH;
    AsciiTake(a, d);
    hide NoStart, NoWord, AsciiByte, STATIC_ROOT, Lacks, Ascii;
    var n := Ascii(a) + tail;
    NoStartConcat(STATIC_ROOT, Ascii(a), tail);
    NoStartOfLonger(STATIC_ROOT, v, n);
    assert n[d] == Ascii(a)[d] && n[..d] == Ascii(a)[..d];
    ShyOfAll(v, n, d);
  }

  lemma RootedIsShyOfExact(v: Text, i: nat, base: Text)
    requires IsRooted(v) && i < 4 && InQuotes(base) && !Occurs(STATIC_ROOT, base + [SLASH])
    ensures Shy(v, Filled(ExactParts(i), base), 0)
  {
    hide *;
    ExactIs(i, base);
    RootInExact(i);
    RootInRest(i, base);
    RootedIsShy(v, Share(i) + GoesOn(i), Remainder(i, base), if i < 3 then 6 else 2);
  }

  lemma RootInRest(i: nat, base: Text)
    requires i < 4 && !Occurs(STATIC_ROOT, base + [SLASH])
    ensures NoStart(STATIC_ROOT, Remainder(i, base))
  {
    NothingBegins(STATIC_ROOT);
    UrlPartsHold("/e");
    hide ExactParts, Filled, NoStart, NoWord, STATIC_ROOT, FollowsUrl, Ascii, IsGuard;
    if i == 0 {
      forall k | 0 < k < 4 ensures NoStart(STATIC_ROOT, Ascii(ExactParts(0)[k])) {
        RootHas(ExactParts(0)[k]);
      }
      forall x | FollowsUrl(x) && NoStart(STATIC_ROOT, x) ensures NoStart(STATIC_ROOT, base + x) {
        FollowersOfBase(x);
        RootBeforeText(base, x);
      }
      UrlPartsNoStart(STATIC_ROOT, base);
    }
  }

  lemma RootInExact(i: nat)
    requires i < 4
    ensures var a, d := Share(i) + GoesOn(i), if i < 3 then 6 else 2;
            NoWord("/e", a) && d < |a| && a[d] in [' ', ':', '('] && Lacks(a[..d], '/')
  {
    assert NoWord("/e", Share(i));
    hide NoWord, GoesOn;
    var d := if i < 3 then 6 else 2;
    assert (Share(i) + GoesOn(i))[..d] == Share(i)[..d];
    NoRootGoesOn(i);
    NoWordConcat("/e", Share(i), GoesOn(i));
  }

  lemma NoRootGoesOn(i: nat)
    requires i < 4
    ensures NoWord("/e", GoesOn(i))
  {
    NoRootInUrlTest();
    NoRootInPathTests();
    hide NoWord, URL_TEST, PATH_TEST, JOINED_PATH, JOINED_PATH_ESCAPED;
  }

  lemma RootedIsShyOfMember(v: Text, i: nat, base: Text, e: Text)
    requires IsRooted(v) && i < 4 && InQuotes(base) && !Occurs(STATIC_ROOT, base + [SLASH])
    requires IsExpression(MemberExpression, e)
    ensures |MemberParts(i)| == 2 && Shy(v, Ascii(MemberParts(i)[0]) + MemberTail(i, base, e), 0)
  {
    RootInMember(i);
    SlashInMember(i);
    MemberExpressionBytes(e);
    MemberTailIs(i, base, e);
    hide IsRooted, MemberParts, MemberSuffix, MemberTail, NoStart, NoWord, STATIC_ROOT, InQuotes, Ascii, IsExpression,
      IsGuard;
    var r, join, suffix := STATIC_ROOT, MemberParts(i)[1], MemberSuffix(i);
    RootBegins();
    RootHas(suffix);
    RootHas(join);
    NoStartWithout(r, e);
    NoStartConcat(r, e, Ascii(suffix));
    NoStartConcat(r, Ascii(join), e + Ascii(suffix));
    RootBeforeText(base, Ascii(join) + (e + Ascii(suffix)));
    RootedIsShy(v, MemberParts(i)[0], MemberTail(i, base, e), 8);
  }

  lemma MemberExpressionBytes(e: Text)
    requires IsExpression(MemberExpression, e)
    ensures SLASH !in e
  {
    ExpressionBytes(MemberExpression, e);
    hide IsExpression;
  }

  lemma SlashInMember(i: nat)
    requires i < 4
    ensures |MemberParts(i)| == 2 && Ascii(MemberParts(i)[1]) != [] && Ascii(MemberParts(i)[1])[0] == SLASH
  {
    MemberShape(i);
    assert AsciiByte('/') == SLASH;
    hide MemberParts, AsciiByte;
  }

  lemma RootInMember(i: nat)
    requires i < 4
    ensures |MemberParts(i)| == 2
    ensures NoWord("/e", MemberParts(i)[0]) && NoWord("/e", MemberParts(i)[1]) && NoWord("/e", MemberSuffix(i))
    ensures var a := MemberParts(i)[0]; 8 < |a| && a[8] in [' ', ':', '('] && Lacks(a[..8], '/')
  {
  }

  lemma RootedIsShyOfTest(v: Text, i: nat, id: Text, base: Text)
    requires IsRooted(v) && i < 3 && InQuotes(base) && !Occurs(STATIC_ROOT, base + [SLASH])
    requires IsExpression(Identifier, id)
    ensures Shy(v, Ascii(Common(i) + "(") + (id + Compared(i, id, base)), 0)
  {
    var a := Common(i) + "(";
    assert NoWord("/e", a) && |Common(i)| < |a| && a[|Common(i)|] == '(' && Lacks(a[..|Common(i)|], '/');
    hide *;
    IdentifierBytes(id);
    BaseLacks(base);
    ClosingIs(i);
    RootIsForeign(id, base, Closing(i));
    ComparedNoStart(STATIC_ROOT, i, id, base);
    RootedIsShy(v, a, id + Compared(i, id, base), |Common(i)|);
  }

  // The matches end behind a quote or a space, and after that in no path.

  lemma GuardedEnd(a: Text, s: string, i: nat)
    requires i < |s| && s[i] in [' ', '"', '\''] && Lacks(s[i + 1..], '/')
    ensures IsGuarded(a + Ascii(s))
  {
    AsciiLacks(s[i + 1..], '/');
    assert AsciiByte('/') == SLASH && AsciiByte(' ') == 0x20 && AsciiByte('"') == DOUBLE_QUOTE;
    assert AsciiByte('\'') == SINGLE_QUOTE;
    hide AsciiByte, Lacks;
    var m := a + Ascii(s);
    assert m[|a| + i] == Ascii(s)[i];
    assert m[|a| + i + 1..] == Ascii(s[i + 1..]);
  }

  lemma SourceIsGuarded(i: nat)
    requires i < 4
    ensures IsGuarded(Ascii(ExactSource(i)))
  {
    hide *;
    var end := SourceEnd(i);
    var front := ExactSource(i)[..|ExactSource(i)| - |end|];
    assert ExactSource(i) == front + end;
    AsciiConcat(front, end);
    GuardedEnd(Ascii(front), end, |end| - (if i == 0 then 3 else if i < 3 then 4 else 2));
  }

  /** The end of a source, with its last quote or space and what follows that. */
  lemma SourceEnd(i: nat) returns (end: string)
    requires i < 4
    ensures |end| <= |ExactSource(i)| && ExactSource(i)[|ExactSource(i)| - |end|..] == end
    ensures var g := |end| - (if i == 0 then 3 else if i < 3 then 4 else 2);
            0 <= g < |end| && end[g] in [' ', '"', '\''] && Lacks(end[g + 1..], '/')
  {
    end := EndOf(i);
    EndIsThere(i);
    EndIsGuarded(i);
    hide ExactSource, EndOf;
  }

  function EndOf(i: nat): string {
    if i == 0 then "');" else if i < 3 then "'));" else " {"
  }

  lemma EndIsThere(i: nat)
    requires i < 4
    ensures |EndOf(i)| <= |ExactSource(i)| && ExactSource(i)[|ExactSource(i)| - |EndOf(i)|..] == EndOf(i)
  {
  }

  lemma EndIsGuarded(i: nat)
    ensures var end := EndOf(i);
            && |end| == (if i == 0 then 3 else if i < 3 then 4 else 2)
            && end[0] in [' ', '"', '\''] && Lacks(end[1..], '/')
  {
  }

  lemma MemberIsGuarded(i: nat, e: Text)
    requires i < 4
    ensures IsGuarded(MemberMatch(i, e))
  {
    var suffix := MemberSuffix(i);
    assert |suffix| > 2 && suffix[|suffix| - 2] == '"' && Lacks(suffix[|suffix| - 1..], '/');
    MemberMatchIs(i, e);
    hide MemberSuffix, MemberPrefix, MemberMatch, Ascii, IsGuarded;
    GuardedEnd(Ascii(MemberPrefix(i)) + e, suffix, |suffix| - 2);
  }

  lemma IdentifierIsGuarded(i: nat, id: Text)
    requires i < 3
    ensures IsGuarded(IdentifierMatch(i, id))
  {
    var suffix := TemplateSuffix(i);
    assert |suffix| > 3 && suffix[|suffix| - 3] == '"' && Lacks(suffix[|suffix| - 2..], '/');
    IdentifierMatchIs(i, id);
    hide TemplateSuffix, TemplatePrefix, IdentifierMatch, Ascii, IsGuarded;
    GuardedEnd(Ascii(TemplatePrefix(i)) + id, suffix, |suffix| - 3);
  }

  // Stage by stage.

  lemma StageReplaces(k: nat, base: Text)
    requires k < 11 && InQuotes(base)
    ensures IsReplacing(ConsoleStage(k, base)) && HasWritten(ConsoleStage(k, base))
    ensures forall v :: IsInstance(ConsoleStage(k, base), v) ==> v != []
  {
    StagesKeepAway(k, k, base);
    StageIs(k, base);
    hide KeepsAway, IsInstance, Written, ConsoleStage, Shy, Agrees;
    if k < 4 {
      ExactReplaces(k, base);
    } else if k < 8 {
      MemberReplaces(k - 4, base);
    } else {
      IdentifierReplaces(k - 8, base);
    }
    KeepingAwayWrites(ConsoleStage(k, base));
  }

  lemma KeepingAwayWrites(spec: Spec)
    requires KeepsAway(spec, spec)
    ensures HasWritten(spec) && forall v :: IsInstance(spec, v) ==> v != []
  {
    hide IsInstance, Written, Shy;
  }

  lemma ExactReplaces(i: nat, base: Text)
    requires i < 4
    ensures IsReplacing(ConsoleExact(i, base))
  {
    LastOfSource(i);
    hide ExactSource, Filled, Ascii;
  }

  lemma MemberReplaces(i: nat, base: Text)
    requires i < 4
    ensures IsReplacing(ConsoleMember(i, base))
  {
    MemberShape(i);
    assert AsciiByte(',') == 0x2C;
    hide MemberPrefix, MemberSuffix, MemberParts, Filled, AsciiByte;
  }

  lemma IdentifierReplaces(i: nat, base: Text)
    requires i < 3
    ensures IsReplacing(ConsoleIdentifier(i, base))
  {
    TemplateShape(i);
    assert AsciiByte('.') == DOT;
    DotIsNoIdentifierByte();
    hide TemplatePrefix, TemplateSuffix, Filled, AsciiByte, IdentifierContinue, CONSOLE_TEMPLATES, Common, Lacks;
  }

  lemma InstanceIsGuarded(k: nat, base: Text, m: Text)
    requires k < 11 && IsInstance(ConsoleStage(k, base), m)
    ensures IsGuarded(m)
  {
    hide *;
    StageIs(k, base);
    if k < 4 {
      ExactInstance(k, base, m);
      SourceIsGuarded(k);
    } else if k < 8 {
      var e := MemberInstance(k - 4, base, m);
      MemberIsGuarded(k - 4, e);
    } else {
      var id := IdentifierInstance(k - 8, base, m);
      IdentifierIsGuarded(k - 8, id);
    }
  }

  lemma RootedIsShyOfStage(v: Text, k: nat, base: Text, m: Text)
    requires IsRooted(v) && k < 11 && InQuotes(base) && !Occurs(STATIC_ROOT, base + [SLASH])
    requires IsInstance(ConsoleStage(k, base), m)
    ensures Shy(v, Written(ConsoleStage(k, base), m), 0)
  {
    hide *;
    StageIs(k, base);
    if k < 4 {
      ExactInstance(k, base, m);
      ExactWritten(k, base, m);
      RootedIsShyOfExact(v, k, base);
    } else if k < 8 {
      var e := MemberInstance(k - 4, base, m);
      MemberIsWritten(k - 4, base, e);
      RootedIsShyOfMember(v, k - 4, base, e);
    } else {
      var id := IdentifierInstance(k - 8, base, m);
      IdentifierIsWritten(k - 8, base, id);
      RootedIsShyOfTest(v, k - 8, id, base);
    }
  }

  lemma ExactWritten(i: nat, base: Text, m: Text)
    requires i < 4
    ensures Written(ConsoleExact(i, base), m) == Filled(ExactParts(i), base)
  {
    hide Filled, ExactParts, ExactSource, Ascii;
  }

  lemma ConsoleStageKeepsLed(k: nat, base: Text, v: Text, ps: seq<Text>, text: Text)
    requires IsRooted(v) && k < 11 && InQuotes(base) && !Occurs(STATIC_ROOT, base + [SLASH])
    requires IsLed(v, ps, text) && forall p :: p in ps ==> IsPath(p)
    ensures ConsoleStage(k, base).Valid() && IsLed(v, ps, ConsoleStage(k, base).Run(text))
  {
    hide *;
    var spec := ConsoleStage(k, base);
    StageReplaces(k, base);
    forall m | IsInstance(spec, m) ensures IsGuarded(m) && Shy(v, Written(spec, m), 0) {
      InstanceIsGuarded(k, base, m);
      RootedIsShyOfStage(v, k, base, m);
    }
    StageKeepsLed(spec, v, ps, text);
  }

  // All stages behind the first two.

  function CodeStages(base: Text): (stages: seq<Spec>)
    ensures |stages| == 11 && forall k :: 0 <= k < 11 ==> stages[k] == ConsoleStage(k, base)
  {
    seq(11, k requires 0 <= k < 11 => ConsoleStage(k, base))
  }

  lemma CodeStagesAreValid(base: Text)
    requires InQuotes(base)
    ensures AllValid(CodeStages(base))
  {
    hide ConsoleStage, InQuotes, IsReplacing, Spec.Valid;
    forall k | 0 <= k < 11 ensures ConsoleStage(k, base).Valid() {
      StageReplaces(k, base);
      ReplacingIsValid(ConsoleStage(k, base));
    }
  }

  /** After some of the stages none of these has anything left to do. */
  lemma {:induction false} StagesBecomeQuiet(base: Text, n: nat, text: Text)
    requires InQuotes(base) && n <= 11
    ensures AllValid(CodeStages(base))
    ensures forall i :: 0 <= i < n ==> Quiet(ConsoleStage(i, base), Compose(CodeStages(base)[..n], text))
    decreases n
  {
    CodeStagesAreValid(base);
    hide ConsoleStage, InQuotes, Quiet, Compose, IsReplacing, Spec.Run, Spec.Valid, KeepsAway, HasWritten, IsInstance;
    if n > 0 {
      StagesBecomeQuiet(base, n - 1, text);
      ComposeStep(CodeStages(base), n - 1, text);
      var last, was := ConsoleStage(n - 1, base), Compose(CodeStages(base)[..n - 1], text);
      StageReplaces(n - 1, base);
      forall i | 0 <= i < n ensures Quiet(ConsoleStage(i, base), last.Run(was)) {
        StagesKeepAway(i, n - 1, base);
        if i < n - 1 {
          StageKeepsQuiet(ConsoleStage(i, base), last, was);
        } else {
          StageBecomesQuiet(last, was);
        }
      }
    }
  }

  lemma {:induction false} QuietStagesKeep(base: Text, n: nat, text: Text)
    requires InQuotes(base) && n <= 11 && forall i :: 0 <= i < 11 ==> Quiet(ConsoleStage(i, base), text)
    ensures AllValid(CodeStages(base)) && Compose(CodeStages(base)[..n], text) == text
    decreases n
  {
    CodeStagesAreValid(base);
    hide ConsoleStage, InQuotes, Quiet, IsReplacing, Spec.Run, Spec.Valid;
    if n > 0 {
      QuietStagesKeep(base, n - 1, text);
      ComposeStep(CodeStages(base), n - 1, text);
      StageReplaces(n - 1, base);
      QuietIsKept(ConsoleStage(n - 1, base), text);
    }
  }

  lemma {:induction false} StagesKeepLed(base: Text, n: nat, v: Text, ps: seq<Text>, text: Text)
    requires IsRooted(v) && n <= 11 && InQuotes(base) && !Occurs(STATIC_ROOT, base + [SLASH])
    requires IsLed(v, ps, text) && forall p :: p in ps ==> IsPath(p)
    ensures AllValid(CodeStages(base)) && IsLed(v, ps, Compose(CodeStages(base)[..n], text))
    decreases n
  {
    CodeStagesAreValid(base);
    hide ConsoleStage, InQuotes, IsLed, IsPath, IsRooted, Spec.Run, Spec.Valid, Occurs, STATIC_ROOT;
    if n > 0 {
      StagesKeepLed(base, n - 1, v, ps, text);
      ComposeStep(CodeStages(base), n - 1, text);
      ConsoleStageKeepsLed(n - 1, base, v, ps, Compose(CodeStages(base)[..n - 1], text));
    }
  }

  // The first two stages.

  /** In the scan of the second stage: an occurrence that has been passed over stood behind another. */
  ghost predicate PassedOver(text: Text, i: nat) {
    forall j: nat :: At(text, j, STATIC_ROOT) && j < i < j + 19 && j <= |text| ==> EndsWith(text[..j], STATIC_BASE)
  }

  lemma {:induction false} LedRootIsKept(base: Text, text: Text, i: nat)
    requires base != [] && base[0] == SLASH && OnlyAtEnd(base, STATIC_ROOT) && STATIC_ROOT != []
    requires IsLed(STATIC_ROOT, [base, base + STATIC_BASE], text) && i <= |text| && PassedOver(text, i)
    ensures Substitute(Prepending(base, STATIC_ROOT), text, i) == text[i..]
    decreases |text| - i
  {
    hide *;
    Unfolds(base, STATIC_ROOT, text, i);
    if i == |text| {
    } else if At(text, i, STATIC_ROOT) {
      RootLength();
      LedBy(base, text, i);
      PassedMatch(text, i);
      LedRootIsKept(base, text, i + |STATIC_ROOT|);
      AtSplits(text, i, STATIC_ROOT);
    } else {
      PassedByte(text, i);
      LedRootIsKept(base, text, i + 1);
      SliceFrom(text, i);
    }
  }

  lemma RootLength()
    ensures |STATIC_ROOT| == 19
  {
    StaticRootSlashes();
  }

  lemma LedBy(base: Text, text: Text, i: nat)
    requires base != [] && base[0] == SLASH && OnlyAtEnd(base, STATIC_ROOT)
    requires IsLed(STATIC_ROOT, [base, base + STATIC_BASE], text) && PassedOver(text, i)
    requires At(text, i, STATIC_ROOT) && i <= |text|
    ensures EndsWith(text[..i], base)
  {
    RootBytes();
    hide At, EndsWith, OnlyAtEnd, STATIC_ROOT, STATIC_BASE;
    var p :| p in [base, base + STATIC_BASE] && EndsWith(text[..i], p);
    if p != base {
      ShadowBefore(base, text, i);
      ShadowedIsNotPrefixed(base, text[..i - 18]);
    }
  }

  lemma ShadowBefore(base: Text, text: Text, i: nat)
    requires At(text, i, STATIC_ROOT) && i <= |text| && EndsWith(text[..i], base + STATIC_BASE)
    ensures i >= 18 && At(text, i - 18, STATIC_ROOT) && EndsWith(text[..i - 18], base)
  {
    RootBytes();
    hide STATIC_ROOT, STATIC_BASE;
    var b := |base| + 18;
    assert text[..i][i - b..] == base + STATIC_BASE;
    assert text[i - 18..i] == text[..i][i - b..][|base|..] == STATIC_BASE;
    assert text[i] == text[i..i + 19][0] == SLASH;
    assert text[i - 18..i + 1] == STATIC_BASE + [SLASH];
    assert text[..i - 18][i - b..] == text[..i][i - b..][..|base|] == base;
  }

  lemma PassedMatch(text: Text, i: nat)
    requires At(text, i, STATIC_ROOT) && PassedOver(text, i)
    ensures PassedOver(text, i + |STATIC_ROOT|)
  {
    RootLength();
    hide At, STATIC_ROOT, STATIC_BASE, EndsWith;
    forall j: nat | At(text, j, STATIC_ROOT) && j < i + 19 < j + 19
      && j <= |text| ensures EndsWith(text[..j], STATIC_BASE) {
      RootsOverlap(text, i, j);
    }
  }

  lemma PassedByte(text: Text, i: nat)
    requires !At(text, i, STATIC_ROOT) && PassedOver(text, i)
    ensures PassedOver(text, i + 1)
  {
  }

  /** The texts that can stand before the static root, and before a source, once both stages are done. */
  function Leaders(base: Text): seq<Text> {
    [base, base + STATIC_BASE]
  }

  lemma PrefixedIsLed(base: Text, name: Text, text: Text)
    requires SLASH !in name && (base == [] || base[0] == SLASH) && KeepsStaticRootApart(base, name)
    ensures IsLed(STATIC_ROOT, Leaders(base), Prefixed(base, name, text))
    ensures IsLed(ConsoleSource(name), [base], Prefixed(base, name, text))
  {
    var z := Prefixed(base, name, text);
    if base != [] {
      AfterBoth(base, name, text);
    }
    hide At, EndsWith, Prefixed, KeepsStaticRootApart, ConsoleSource, STATIC_ROOT, STATIC_BASE, OnlyAtEnd, Rewritten;
    forall j: nat | At(z, j, STATIC_ROOT) && j <= |z| ensures exists p :: p in Leaders(base) && EndsWith(z[..j], p) {
      if base == [] {
        EndsWithNothing(z[..j]);
        assert [] in Leaders(base);
      } else {
        RootIsPrefixedOrShadowed(base, z, j);
        if !EndsWith(z[..j], base) {
          EndsWithBoth(z, j, base);
          assert base + STATIC_BASE in Leaders(base);
        } else {
          assert base in Leaders(base);
        }
      }
    }
    forall j: nat | At(z, j, ConsoleSource(name)) && j <= |z| ensures exists p :: p in [base] && EndsWith(z[..j], p) {
      if base == [] {
        EndsWithNothing(z[..j]);
      }
      assert base in [base];
    }
  }

  lemma EndsWithBoth(text: Text, j: nat, base: Text)
    requires 18 <= j <= |text| && EndsWith(text[..j - 18], base) && EndsWith(text[..j], STATIC_BASE)
    ensures EndsWith(text[..j], base + STATIC_BASE)
  {
    RootBytes();
    hide STATIC_BASE;
    assert text[..j][j - 18 - |base|..] == text[..j - 18][j - 18 - |base|..] + text[..j][j - 18..];
  }

  lemma LedIsKept(base: Text, name: Text, text: Text)
    requires SLASH !in name && (base == [] || base[0] == SLASH) && KeepsStaticRootApart(base, name)
    requires IsLed(STATIC_ROOT, Leaders(base), text) && IsLed(ConsoleSource(name), [base], text)
    ensures Prefixed(base, name, text) == text
  {
    hide *;
    Rounds(base, name, text);
    if base == [] {
      NothingInserted(ConsoleSource(name), text);
      NothingInserted(STATIC_ROOT, text);
    } else {
      AfterBoth(base, name, text);
      forall j: nat | At(text, j, ConsoleSource(name)) && j <= |text| ensures EndsWith(text[..j], base) {
        LedByOne(ConsoleSource(name), base, text, j);
      }
      PrefixedIsKept(base, ConsoleSource(name), text);
      NothingPassed(text);
      LeadersAre(base);
      LedRootIsKept(base, text, 0);
      AsSubstitute(Prepending(base, STATIC_ROOT), text);
      assert text[0..] == text;
    }
  }

  lemma LeadersAre(base: Text)
    ensures Leaders(base) == [base, base + STATIC_BASE]
  {
  }

  lemma LedByOne(v: Text, base: Text, text: Text, j: nat)
    requires IsLed(v, [base], text) && At(text, j, v) && j <= |text|
    ensures EndsWith(text[..j], base)
  {
    hide At, EndsWith;
  }

  lemma NothingPassed(text: Text)
    ensures PassedOver(text, 0)
  {
  }

  /** A name as the router hands it on, as far as it can be told from code. */
  predicate IsPlainName(name: Text) {
    SLASH !in name && AsciiByte(' ') !in name && AsciiByte(':') !in name && AsciiByte('(') !in name
  }

  lemma RootedLiterals(name: Text)
    requires IsPlainName(name)
    ensures IsRooted(STATIC_ROOT) && IsRooted(ConsoleSource(name))
  {
    SourceShape(name);
    SourceLength(name);
    DistBytes();
    StaticRootSlashes();
    CodeInPaths();
    hide STATIC_ROOT, DIST, ConsoleSource, AsciiByte;
    var v := ConsoleSource(name);
    assert v == STATIC_ROOT + (name + DIST);
    assert v[|v| - 1] == DIST[12];
  }

  lemma CodeInPaths()
    ensures forall c :: c == ' ' || c == ':' || c == '(' ==> AsciiByte(c) !in STATIC_ROOT && AsciiByte(c) !in DIST
  {
    var s, t := "/extensions-static/", "/dist/v3dist/";
    forall c | c == ' ' || c == ':' || c == '(' ensures AsciiByte(c) !in STATIC_ROOT && AsciiByte(c) !in DIST {
      assert Lacks(s, c) && Lacks(t, c);
      AsciiLacks(s, c);
      AsciiLacks(t, c);
    }
  }

  lemma LeadersArePaths(base: Text)
    requires InQuotes(base)
    ensures forall p :: p in Leaders(base) ==> IsPath(p)
    ensures IsPath(base)
  {
    RootBytes();
    RootHasNoGuard();
    StaticRootSlashes();
    hide STATIC_ROOT, STATIC_BASE;
    assert forall b <- STATIC_BASE :: b in STATIC_ROOT;
    assert STATIC_BASE[0] == STATIC_ROOT[0];
    var p := base + STATIC_BASE;
    assert forall b <- p :: b in base || b in STATIC_BASE;
  }

  /** After one pass of all stages neither the first two nor the others have anything left to do. */
  lemma OnePassSettles(base: Text, name: Text, text: Text)
    requires InQuotes(base) && IsPlainName(name) && KeepsStaticRootApart(base, name)
    ensures AllValid(CodeStages(base))
    ensures var z := Compose(CodeStages(base), Prefixed(base, name, text));
            Prefixed(base, name, z) == z && Compose(CodeStages(base), z) == z
  {
    CodeStagesAreValid(base);
    RootedLiterals(name);
    LeadersArePaths(base);
    Apart(base, name);
    BaseLacks(base);
    NameLacksSlash(name);
    hide *;
    var y, n := Prefixed(base, name, text), |CodeStages(base)|;
    AllStages(base);
    PrefixedIsLed(base, name, text);
    StagesKeepLed(base, n, STATIC_ROOT, Leaders(base), y);
    StagesKeepLed(base, n, ConsoleSource(name), [base], y);
    var z := Compose(CodeStages(base), y);
    LedIsKept(base, name, z);
    StagesBecomeQuiet(base, n, y);
    QuietStagesKeep(base, n, z);
  }

  lemma NameLacksSlash(name: Text)
    requires IsPlainName(name)
    ensures SLASH !in name
  {
  }

  lemma AllStages(base: Text)
    ensures |CodeStages(base)| == 11 && CodeStages(base)[..11] == CodeStages(base)
  {
    hide ConsoleStage;
  }
}
