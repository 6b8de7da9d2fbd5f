/** The stages of the console that rewrite code: none of them makes work for itself or for a stage before it. */
module ConsoleRewrites {
  import opened Bytes
  import opened LiteralSpec
  import opened ExpressionSpec
  import opened Stages
  import opened Profiles
  import opened StageEffects
  import opened CodeTests
  import opened ExactRules
  import opened MemberRules
  import opened IdentifierRules

  /** The stages of the console behind the first two. */
  function ConsoleStage(k: nat, base: Text): Spec
    requires k < 11
  {
    if k < 4 then ConsoleExact(k, base) else if k < 8 then ConsoleMember(k - 4, base) else ConsoleIdentifier(k - 8,
       base)
  }

  lemma IdentifierInstance(i: nat, base: Text, v: Text) returns (id: Text)
    requires i < 3 && IsInstance(ConsoleIdentifier(i, base), v)
    ensures IsExpression(Identifier, id) && v == IdentifierMatch(i, id)
  {
    id :| IsExpression(Identifier, id)
          && v == ConsoleIdentifier(i, base).pattern.prefix + id + ConsoleIdentifier(i, base).pattern.suffix;
  }

  lemma IdentifierIsWritten(i: nat, base: Text, id: Text)
    requires i < 3 && IsExpression(Identifier, id) && InQuotes(base)
    ensures Written(ConsoleIdentifier(i, base), IdentifierMatch(i, id)) ==
            Ascii(Common(i) + "(") + (id + Compared(i, id, base))
  {
    BetweenIsInstance(ConsoleIdentifier(i, base).pattern, id);
    IdentifierRenders(i, id, base);
    hide IsExpression, Ascii, Filled, RenderTemplate, Compared, Common, Written, CONSOLE_TEMPLATES;
  }

  lemma ComparedEnds(i: nat, id: Text, base: Text)
    requires i < 3
    ensures var y := Compared(i, id, base); y != [] && y[|y| - 1] == AsciiByte(if i < 2 then ')' else '}')
  {
    CloseEnds(i);
    LastPartIs(id, Closing(i));
    SecondPartIs(id, base, Closing(i));
    TestIs(id, base, Closing(i));
    ComparedIs(id, base);
    hide Ascii, AsciiByte, LastPart, SecondPart, Test, Closing;
    var last, second, test := LastPart(id, Closing(i)), SecondPart(id, base, Closing(i)), Test(id, base, Closing(i));
    LastOfConcat(Ascii("/\".concat("), id, Ascii(".replace(/^\\/+/,\"\")))" + Closing(i)));
    LastOfConcat(Ascii(":\""), base, last);
    LastOfConcat(Ascii("/\")?"), id, Ascii(":\"") + (base + last));
    LastOfConcat(Ascii(".startsWith(\""), base, second);
    LastOfConcat(Ascii("\"||"), id, Ascii(".startsWith(\"") + (base + second));
    LastOfConcat(Ascii("===\""), base, test);
    LastOfConcat(Ascii(".replace(/\\/\\/+/,\"/\"),"), id, Comparison(i, id, base));
    LastOfConcat(Ascii("="), id, Ascii(".replace(/\\/\\/+/,\"/\"),") + (id + Comparison(i, id, base)));
  }

  lemma CloseEnds(i: nat)
    requires i < 3
    ensures var close := Ascii(".replace(/^\\/+/,\"\")))" + Closing(i));
            close != [] && close[|close| - 1] == AsciiByte(if i < 2 then ')' else '}')
  {
    var close := ".replace(/^\\/+/,\"\")))" + Closing(i);
    assert close[|close| - 1] == if i < 2 then ')' else '}';
    hide AsciiByte;
  }

  lemma IdentifierAgrees(i: nat, id: Text, base: Text)
    requires i < 3
    ensures Agrees(IdentifierMatch(i, id), Ascii(Common(i) + "(") + (id + Compared(i, id, base)), |Ascii(Common(i))|)
  {
    hide *;
    var more := CommonAndMore(i);
    IdentifierMatchIs(i, id);
    MatchEnds(i);
    ComparedEndsCode(i, id, base);
    AsciiConcat(Common(i), more);
    AsciiConcat(Common(i), "(");
    var a, suffix, compared := Ascii(Common(i)), Ascii(TemplateSuffix(i)), Compared(i, id, base);
    Reassociate(a + Ascii(more), id, suffix);
    Reassociate(a, Ascii(more), id + suffix);
    Reassociate(a, Ascii("("), id + compared);
    LastOfConcat(Ascii(more), id, suffix);
    LastOfConcat(Ascii("("), id, compared);
    AgreesUpTo(a, Ascii(more) + (id + suffix), Ascii("(") + (id + compared));
  }

  lemma CommonAndMore(i: nat) returns (more: string)
    requires i < 3
    ensures TemplatePrefix(i) == Common(i) + more
  {
    TemplateShape(i);
    more := TemplatePrefix(i)[|Common(i)|..];
    hide TemplatePrefix, Common;
  }

  lemma MatchEnds(i: nat)
    requires i < 3
    ensures var suffix := Ascii(TemplateSuffix(i)); suffix != [] && !IdentifierContinue(suffix[|suffix| - 1])
  {
    TemplateShape(i);
    EndsInNoName(TemplateSuffix(i));
    hide TemplateSuffix, Ascii, IdentifierContinue;
  }

  lemma ComparedEndsCode(i: nat, id: Text, base: Text)
    requires i < 3
    ensures var y := Compared(i, id, base); y != [] && !IdentifierContinue(y[|y| - 1])
  {
    ComparedEnds(i, id, base);
    NoIdentifierChars();
    hide Compared, IdentifierContinue, AsciiByte;
  }

  lemma CommonIsShort(i: nat)
    ensures |Ascii(Common(i))| <= 6
  {
  }

  /** What keeps a stage away from the expressions of a member rule, whatever they are. */
  lemma KeptFromMember(other: Spec, k: nat, base: Text)
    requires k < 4 && |MemberParts(k)| == 2
    requires forall v, e :: IsInstance(other, v) && IsExpression(MemberExpression, e) ==>
               Shy(v, Ascii(MemberParts(k)[0]) + MemberTail(k, base, e), |Ascii(MemberParts(k)[0])|)
               && |Ascii(MemberParts(k)[0])| < |v|
    ensures KeepsAway(other, ConsoleMember(k, base))
  {
    hide IsInstance, IsExpression, Shy, MemberTail, MemberParts, ConsoleMember, MemberMatch, Written, Agrees;
    forall v: Text, m: Text | IsInstance(other, v) && IsInstance(ConsoleMember(k, base), m)
      ensures exists c: nat :: Agrees(m, Written(ConsoleMember(k, base), m), c)
                               && Shy(v, Written(ConsoleMember(k, base), m), c) && c < |v|
    {
      var e := MemberInstance(k, base, m);
      MemberIsWritten(k, base, e);
      MemberAgrees(k, base, e);
    }
  }

  lemma KeptFromIdentifier(other: Spec, k: nat, base: Text)
    requires k < 3 && InQuotes(base)
    requires forall v, id :: IsInstance(other, v) && IsExpression(Identifier, id) ==>
               Shy(v, Ascii(Common(k) + "(") + (id + Compared(k, id, base)), |Ascii(Common(k))|) && |v| > 6
    ensures KeepsAway(other, ConsoleIdentifier(k, base))
  {
    CommonIsShort(k);
    hide IsInstance, IsExpression, Shy, Compared, Common, ConsoleIdentifier, IdentifierMatch, Written, Agrees,
      InQuotes, Ascii;
    forall v: Text, m: Text | IsInstance(other, v) && IsInstance(ConsoleIdentifier(k, base), m)
      ensures exists c: nat :: Agrees(m, Written(ConsoleIdentifier(k, base), m), c)
                               && Shy(v, Written(ConsoleIdentifier(k, base), m), c) && c < |v|
    {
      var id := IdentifierInstance(k, base, m);
      IdentifierIsWritten(k, base, id);
      IdentifierAgrees(k, id, base);
    }
  }

  lemma ExactInstance(i: nat, base: Text, v: Text)
    requires i < 4
    ensures IsInstance(ConsoleExact(i, base), v) <==> v == Ascii(ExactSource(i))
  {
  }

  /** No stage makes work for a stage before it, or for itself. */
  lemma StagesKeepAway(i: nat, k: nat, base: Text)
    requires i <= k < 11 && InQuotes(base)
    ensures KeepsAway(ConsoleStage(i, base), ConsoleStage(k, base))
  {
    hide *;
    StageIs(i, base);
    StageIs(k, base);
    if k < 4 {
      ExactKeepsAway(i, k, base);
    } else if k < 8 {
      MemberShape(k - 4);
      forall v, e | IsInstance(ConsoleStage(i, base), v) && IsExpression(MemberExpression, e)
        ensures Shy(v, Ascii(MemberParts(k - 4)[0]) + MemberTail(k - 4, base, e), |Ascii(MemberParts(k - 4)[0])|)
                && |Ascii(MemberParts(k - 4)[0])| < |v|
      {
        if i < 4 {
          ExactInstance(i, base, v);
          SourceIsShyOfMember(i, k - 4, base, e);
        } else {
          var d := MemberInstance(i - 4, base, v);
          MemberIsShy(i - 4, k - 4, base, d, e);
        }
      }
      KeptFromMember(ConsoleStage(i, base), k - 4, base);
    } else {
      forall v, id | IsInstance(ConsoleStage(i, base), v) && IsExpression(Identifier, id)
        ensures Shy(v, Ascii(Common(k - 8) + "(") + (id + Compared(k - 8, id, base)), |Ascii(Common(k - 8))|) && |v| > 6
      {
        InstanceIsShyOfTest(i, k - 8, v, id, base);
      }
      KeptFromIdentifier(ConsoleStage(i, base), k - 8, base);
    }
  }

  lemma StageIs(k: nat, base: Text)
    requires k < 11
    ensures ConsoleStage(k, base) == if k < 4 then ConsoleExact(k, base)
                                     else if k < 8 then ConsoleMember(k - 4, base) else ConsoleIdentifier(k - 8, base)
  {
  }

  lemma InstanceIsShyOfTest(i: nat, k: nat, v: Text, id: Text, base: Text)
    requires i <= k + 8 && k < 3 && InQuotes(base) && IsInstance(ConsoleStage(i, base), v)
             && IsExpression(Identifier, id)
    ensures Shy(v, Ascii(Common(k) + "(") + (id + Compared(k, id, base)), |Ascii(Common(k))|) && |v| > 6
  {
    hide *;
    StageIs(i, base);
    if i < 4 {
      ExactInstance(i, base, v);
      SourceIsShyOfTest(i, k, id, base);
      ExactSourceBytes(i);
    } else if i < 8 {
      var d := MemberInstance(i - 4, base, v);
      MemberIsShyOfTest(i - 4, d, k, id, base);
      MemberBytes(i - 4, d);
    } else {
      var d := IdentifierInstance(i - 8, base, v);
      IdentifierIsShy(i - 8, d, k, id, base);
      IdentifierMatchBytes(i - 8, d);
    }
  }
}
