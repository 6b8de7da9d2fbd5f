/** What a stage that replaces matches can make of a text: which literals it can, and cannot, bring into being. */
module StageEffects {
  import opened Bytes
  import opened LiteralSpec
  import opened ExpressionSpec
  import opened Stages
  import ExactIdempotence

  /** A stage that replaces every match, wherever it stands. */
  predicate IsReplacing(spec: Spec) {
    spec.Valid() && match spec
                    case LiteralStage(rule) => rule.mode.Exact?
                    case ExpressionStage(pattern) => !Extends(pattern.syntax, pattern.suffix[0])
                    case BufferedStage(_) => false
  }

  /** All that the stage matches: its source, or an expression between its prefix and its suffix. */
  ghost predicate IsInstance(spec: Spec, v: Text) {
    match spec
    case LiteralStage(rule) => v == rule.source
    case ExpressionStage(p) => exists e :: IsExpression(p.syntax, e) && v == p.prefix + e + p.suffix
    case BufferedStage(_) => false
  }

  /** What is written for a match. */
  function Written(spec: Spec, v: Text): Text {
    match spec
    case LiteralStage(rule) => rule.mode.replacement
    case ExpressionStage(p) =>
      if |p.prefix| + |p.suffix| <= |v| then Render(p, v[|p.prefix|..|v| - |p.suffix|]) else []
    case BufferedStage(_) => []
  }

  /** Expressions are looked for only where the text before does not end in an identifier. */
  predicate IsBlocked(spec: Spec, before: Text) {
    spec.ExpressionStage? && EndsInIdentifier(before)
  }

  /** There is nothing in the text for the stage to do. */
  ghost predicate Quiet(spec: Spec, text: Text) {
    forall v: Text, o: nat :: IsInstance(spec, v) && At(text, o, v) && o <= |text| ==> IsBlocked(spec, text[..o])
  }

  /** The stage matches at the beginning of `rest`, when `h` has been written before. */
  ghost predicate CanMatch(spec: Spec, h: Text, rest: Text) {
    !IsBlocked(spec, h) && exists v :: IsInstance(spec, v) && v <= rest
  }

  // One induction for all that a stage keeps: a statement about what is written and what is still to come.

  ghost predicate KeptByCopying(spec: Spec, inv: (Text, Text) -> bool) {
    forall h: Text, b: Byte, rest: Text ::
      inv(h, [b] + rest) && !CanMatch(spec, h, [b] + rest) ==> inv(h + [b], rest)
  }

  ghost predicate KeptByReplacing(spec: Spec, inv: (Text, Text) -> bool) {
    forall h: Text, m: Text, rest: Text ::
      IsInstance(spec, m) && !IsBlocked(spec, h) && inv(h, m + rest) ==> inv(h + Written(spec, m), rest)
  }

  lemma {:induction false} ExactKeeps(rule: Rule, text: Text, i: nat, h: Text, inv: (Text, Text) -> bool)
    requires rule.Valid() && rule.mode.Exact? && i <= |text|
    requires KeptByCopying(LiteralStage(rule), inv) && KeptByReplacing(LiteralStage(rule), inv)
    requires inv(h, text[i..])
    ensures inv(h + Substitute(rule, text, i), [])
    decreases |text| - i
  {
    hide At, Substitute, KeptByCopying, KeptByReplacing, CanMatch, IsInstance, IsBlocked;
    var spec := LiteralStage(rule);
    SubstituteUnfolds(rule, text, i);
    if i == |text| {
      assert text[i..] == [] && h + [] == h;
    } else if At(text, i, rule.source) {
      AtSplits(text, i, rule.source);
      SourceIsInstance(rule, h);
      var next := i + |rule.source|;
      ReplacingKeeps(spec, inv, h, rule.source, text[next..]);
      ExactKeeps(rule, text, next, h + rule.mode.replacement, inv);
      Reassociate(h, rule.mode.replacement, Substitute(rule, text, next));
    } else {
      SliceFrom(text, i);
      AtBegins(text, i, rule.source);
      NoLiteralMatch(rule, h, text[i..]);
      CopyingKeeps(spec, inv, h, text[i], text[i + 1..]);
      ExactKeeps(rule, text, i + 1, h + [text[i]], inv);
      Reassociate(h, [text[i]], Substitute(rule, text, i + 1));
    }
  }

  lemma SourceIsInstance(rule: Rule, h: Text)
    ensures IsInstance(LiteralStage(rule), rule.source) && !IsBlocked(LiteralStage(rule), h)
    ensures Written(LiteralStage(rule), rule.source) == rule.mode.replacement
  {
  }

  lemma NoLiteralMatch(rule: Rule, h: Text, rest: Text)
    requires !(rule.source <= rest)
    ensures !CanMatch(LiteralStage(rule), h, rest)
  {
  }

  lemma CopyingKeeps(spec: Spec, inv: (Text, Text) -> bool, h: Text, b: Byte, rest: Text)
    requires KeptByCopying(spec, inv) && inv(h, [b] + rest) && !CanMatch(spec, h, [b] + rest)
    ensures inv(h + [b], rest)
  {
  }

  lemma ReplacingKeeps(spec: Spec, inv: (Text, Text) -> bool, h: Text, m: Text, rest: Text)
    requires KeptByReplacing(spec, inv) && IsInstance(spec, m) && !IsBlocked(spec, h) && inv(h, m + rest)
    ensures inv(h + Written(spec, m), rest)
  {
  }

  lemma {:induction false} ExpressionKeeps(p: Pattern, text: Text, i: nat, h: Text, inv: (Text, Text) -> bool)
    requires IsReplacing(ExpressionStage(p)) && i <= |text|
    requires KeptByCopying(ExpressionStage(p), inv) && KeptByReplacing(ExpressionStage(p), inv)
    requires forall m :: IsInstance(ExpressionStage(p), m) ==> Written(ExpressionStage(p), m) != []
    requires inv(h, text[i..])
    ensures inv(h + ExpressionSpec.Rewrite(p, text, i, EndsInIdentifier(h)), [])
    decreases |text| - i
  {
    hide *;
    var spec, after := ExpressionStage(p), EndsInIdentifier(h);
    ReplacingIsValid(spec);
    if i == |text| {
      NothingToRewrite(p, text, after);
      assert text[i..] == [] && h + [] == h;
    } else {
      RewriteUnfolds(p, text, i, after);
      match MatchAt(p, text, i, after)
      case Some(n) =>
        MatchIsInstance(p, text, i, after, n);
        var m, r := text[i..i + n], Render(p, ExpressionSpec.Expression(p, text, i, n));
        assert text[i..] == m + text[i + n..];
        BlockedMeansAfterIdentifier(p, h);
        ReplacingKeeps(spec, inv, h, m, text[i + n..]);
        EndOfLonger(h, r);
        ExpressionKeeps(p, text, i + n, h + r, inv);
        Reassociate(h, r, ExpressionSpec.Rewrite(p, text, i + n, EndsInIdentifier(r)));
      case None =>
        var b := text[i];
        SliceFrom(text, i);
        NoExpressionMatch(p, text, i, h);
        CopyingKeeps(spec, inv, h, b, text[i + 1..]);
        LastCopied(h, b);
        ExpressionKeeps(p, text, i + 1, h + [b], inv);
        Reassociate(h, [b], ExpressionSpec.Rewrite(p, text, i + 1, IdentifierContinue(b)));
    }
  }

  lemma ReplacingIsValid(spec: Spec)
    requires IsReplacing(spec)
    ensures spec.Valid()
    ensures spec.ExpressionStage? ==> spec.pattern.Valid()
    ensures spec.LiteralStage? ==> spec.rule.Valid() && spec.rule.mode.Exact?
  {
  }

  lemma NothingToRewrite(p: Pattern, text: Text, after: bool)
    requires p.Valid()
    ensures ExpressionSpec.Rewrite(p, text, |text|, after) == []
  {
  }

  lemma BlockedMeansAfterIdentifier(p: Pattern, h: Text)
    ensures IsBlocked(ExpressionStage(p), h) <==> EndsInIdentifier(h)
  {
  }

  lemma EndOfLonger(h: Text, r: Text)
    requires r != []
    ensures EndsInIdentifier(h + r) == EndsInIdentifier(r)
  {
  }

  lemma LastCopied(h: Text, b: Byte)
    ensures EndsInIdentifier(h + [b]) == IdentifierContinue(b)
  {
  }

  lemma MatchIsInstance(p: Pattern, text: Text, i: nat, after: bool, n: nat)
    requires p.Valid() && MatchAt(p, text, i, after) == Some(n)
    ensures !after && i + n <= |text| && |p.prefix| + |p.suffix| < n
    ensures IsInstance(ExpressionStage(p), text[i..i + n])
    ensures Written(ExpressionStage(p), text[i..i + n]) == Render(p, ExpressionSpec.Expression(p, text, i, n))
  {
    hide *;
    MatchIsNotAfterIdentifier(p, text, i, after);
    MatchIsCandidate(p, text, i, after, n);
    MatchIsExpressionBetween(p, text, i, n);
    var c, e := i + |p.prefix|, i + n - |p.suffix|;
    ThreeParts(text, i, c, e, i + n);
    SliceOfAt(text, i, p.prefix);
    SliceOfAt(text, e, p.suffix);
    BetweenIsInstance(p, text[c..e]);
    ExpressionIsBetween(p, text, i, n);
  }

  lemma BetweenIsInstance(p: Pattern, e: Text)
    requires IsExpression(p.syntax, e)
    ensures IsInstance(ExpressionStage(p), p.prefix + e + p.suffix)
    ensures Written(ExpressionStage(p), p.prefix + e + p.suffix) == Render(p, e)
  {
    hide IsExpression, Render;
    var v := p.prefix + e + p.suffix;
    assert v[|p.prefix|..|v| - |p.suffix|] == e;
  }

  lemma ExpressionIsBetween(p: Pattern, text: Text, i: nat, n: nat)
    requires |p.prefix| + |p.suffix| <= n && i + n <= |text|
    ensures ExpressionSpec.Expression(p, text, i, n) == text[i + |p.prefix|..i + n - |p.suffix|]
  {
  }

  lemma MatchIsCandidate(p: Pattern, text: Text, i: nat, after: bool, n: nat)
    requires p.Valid() && MatchAt(p, text, i, after) == Some(n)
    ensures At(text, i, p.prefix) && Candidate(p, text, i, true) == Match(n)
  {
  }

  lemma NoExpressionMatch(p: Pattern, text: Text, i: nat, h: Text)
    requires IsReplacing(ExpressionStage(p)) && i <= |text|
    requires MatchAt(p, text, i, EndsInIdentifier(h)) == None
    ensures !CanMatch(ExpressionStage(p), h, text[i..])
  {
    hide IsExpression, Render, Extends, EndsInIdentifier;
    if CanMatch(ExpressionStage(p), h, text[i..]) {
      var v :| IsInstance(ExpressionStage(p), v) && v <= text[i..];
      var e :| IsExpression(p.syntax, e) && v == p.prefix + e + p.suffix;
      InstanceMatches(p, text, i, e);
    }
  }

  lemma InstanceMatches(p: Pattern, text: Text, i: nat, e: Text)
    requires IsReplacing(ExpressionStage(p)) && i <= |text| && IsExpression(p.syntax, e)
    requires p.prefix + e + p.suffix <= text[i..]
    ensures MatchAt(p, text, i, false).Some?
  {
    hide *;
    ReplacingIsValid(ExpressionStage(p));
    SuffixEnds(p);
    ExpressionIsNotEmpty(p.syntax, e);
    var v, c := p.prefix + e + p.suffix, i + |p.prefix|;
    AtBegins(text, i, v);
    AtConcat(text, i, p.prefix + e, p.suffix);
    AtConcat(text, i, p.prefix, e);
    SliceOfAt(text, c, e);
    SliceOfAt(text, c + |e|, p.suffix);
    MatchIsExpressionBetween(p, text, i, |v|);
    CandidateIsMatch(p, text, i, |v|);
  }

  lemma SuffixEnds(p: Pattern)
    requires IsReplacing(ExpressionStage(p))
    ensures p.suffix != [] && !Extends(p.syntax, p.suffix[0])
  {
  }

  lemma CandidateIsMatch(p: Pattern, text: Text, i: nat, n: nat)
    requires p.Valid() && At(text, i, p.prefix) && Candidate(p, text, i, true) == Match(n)
    ensures MatchAt(p, text, i, false).Some?
  {
  }

  /** A statement that the stage keeps holds of the whole output. */
  lemma StageKeeps(spec: Spec, text: Text, inv: (Text, Text) -> bool)
    requires IsReplacing(spec) && KeptByCopying(spec, inv) && KeptByReplacing(spec, inv) && inv([], text)
    requires forall m :: IsInstance(spec, m) ==> Written(spec, m) != []
    ensures inv(spec.Run(text), [])
  {
    hide KeptByCopying, KeptByReplacing, IsInstance, Written, Substitute, ExpressionSpec.Rewrite;
    assert text[0..] == text;
    match spec
    case LiteralStage(rule) =>
      ExactKeeps(rule, text, 0, [], inv);
      assert [] + spec.Run(text) == spec.Run(text);
    case ExpressionStage(p) =>
      ExpressionKeeps(p, text, 0, [], inv);
      assert [] + spec.Run(text) == spec.Run(text);
  }

  /** A quiet text is left alone. */
  lemma QuietIsKept(spec: Spec, text: Text)
    requires IsReplacing(spec) && Quiet(spec, text)
    ensures spec.Run(text) == text
  {
    hide Quiet, IsInstance, Substitute, ExpressionSpec.Rewrite, At;
    match spec
    case LiteralStage(rule) =>
      forall o | 0 <= o <= |text| ensures !At(text, o, rule.source) {
        QuietLiteral(rule, text, o);
      }
      ExactIdempotence.KeptWithoutSource(rule, text);
    case ExpressionStage(p) =>
      QuietFrom(p, text, 0);
      assert text[..0] == [] && text[0..] == text;
  }

  lemma QuietLiteral(rule: Rule, text: Text, o: nat)
    requires Quiet(LiteralStage(rule), text) && o <= |text|
    ensures !At(text, o, rule.source)
  {
    hide At;
    SourceIsInstance(rule, text[..o]);
  }

  lemma {:induction false} QuietFrom(p: Pattern, text: Text, i: nat)
    requires IsReplacing(ExpressionStage(p)) && Quiet(ExpressionStage(p), text) && i <= |text|
    ensures ExpressionSpec.Rewrite(p, text, i, EndsInIdentifier(text[..i])) == text[i..]
    decreases |text| - i
  {
    hide *;
    ReplacingIsValid(ExpressionStage(p));
    if i == |text| {
      NothingToRewrite(p, text, EndsInIdentifier(text[..i]));
    } else {
      var after := EndsInIdentifier(text[..i]);
      RewriteUnfolds(p, text, i, after);
      QuietMeansNoMatch(p, text, i);
      SliceFrom(text, i);
      LastCopied(text[..i], text[i]);
      QuietFrom(p, text, i + 1);
    }
  }

  lemma QuietMeansNoMatch(p: Pattern, text: Text, i: nat)
    requires p.Valid() && Quiet(ExpressionStage(p), text) && i <= |text|
    ensures MatchAt(p, text, i, EndsInIdentifier(text[..i])) == None
  {
    hide Quiet, IsInstance, MatchAt, EndsInIdentifier, At;
    var m := MatchAt(p, text, i, EndsInIdentifier(text[..i]));
    if m.Some? {
      MatchIsInstance(p, text, i, EndsInIdentifier(text[..i]), m.value);
      QuietInstance(p, text, i, text[i..i + m.value]);
    }
  }

  lemma QuietInstance(p: Pattern, text: Text, i: nat, v: Text)
    requires Quiet(ExpressionStage(p), text) && IsInstance(ExpressionStage(p), v)
    requires i + |v| <= |text| && text[i..i + |v|] == v
    ensures EndsInIdentifier(text[..i])
  {
    hide EndsInIdentifier, IsInstance;
    assert At(text, i, v);
  }

  // A literal that never touches what is written but where it agrees with what was matched.

  /** `v` does not include byte `c` of `n`, unless it begins behind it. */
  ghost predicate NoCover(v: Text, n: Text, c: nat) {
    forall left: Text, right: Text, o: nat ::
      At(left + n + right, o, v) && o <= |left| + c ==> o + |v| <= |left| + c
  }

  /** `v` does not begin in `x`, whatever follows. */
  ghost predicate NoStart(v: Text, x: Text) {
    forall t: nat, rest: Text :: t < |x| ==> !At(x + rest, t, v)
  }

  /** `v` does not touch `n` from byte `c` on. */
  ghost predicate Shy(v: Text, n: Text, c: nat) {
    c < |n| && NoCover(v, n, c) && NoStart(v, n[c + 1..])
  }

  lemma ShyMeans(v: Text, left: Text, n: Text, right: Text, c: nat, o: nat)
    requires Shy(v, n, c) && At(left + n + right, o, v)
    ensures o + |v| <= |left| + c || |left| + |n| <= o
  {
    hide At, NoStart;
    if |left| + c < o < |left| + |n| {
      var a := left + n[..c + 1];
      assert left + n + right == a + (n[c + 1..] + right);
      assert (a + (n[c + 1..] + right))[|a|..] == n[c + 1..] + right;
      AtShifts(left + n + right, |a|, o - |a|, v);
      StartsNowhere(v, n[c + 1..], o - |a|, right);
    }
  }

  lemma StartsNowhere(v: Text, x: Text, t: nat, rest: Text)
    requires NoStart(v, x) && t < |x|
    ensures !At(x + rest, t, v)
  {
  }

  /** The replacement of `m` by `n`, as far as literals are concerned that are shy of it. */
  predicate Agrees(m: Text, n: Text, c: nat) {
    && c < |n| && c < |m| && m[..c] == n[..c]
    && !IdentifierContinue(m[|m| - 1]) && !IdentifierContinue(n[|n| - 1])
  }

  lemma ShyWasThere(v: Text, left: Text, m: Text, n: Text, right: Text, c: nat, o: nat) returns (was: nat)
    requires v != [] && Shy(v, n, c) && Agrees(m, n, c) && At(left + n + right, o, v) && o <= |left + n + right|
    ensures At(left + m + right, was, v) && was <= |left + m + right|
    ensures EndsInIdentifier((left + m + right)[..was]) == EndsInIdentifier((left + n + right)[..o])
    ensures was == o < |left| + c || (was >= |left| + |m| && o == was - |m| + |n|)
  {
    hide Shy, At, IdentifierContinue;
    ShyMeans(v, left, n, right, c, o);
    var before, now := left + m + right, left + n + right;
    if o + |v| <= |left| + c {
      was := o;
      assert before[..|left| + c] == left + m[..c] == left + n[..c] == now[..|left| + c];
      SameBegin(before, now, |left| + c, o, v);
    } else {
      was := o - |n| + |m|;
      assert before[|left| + |m|..] == right == now[|left| + |n|..];
      AtShifts(before, |left| + |m|, o - |left| - |n|, v);
      AtShifts(now, |left| + |n|, o - |left| - |n|, v);
      AtIsWithin(before, was, v);
      SameLast(left, m, right, was);
      SameLast(left, n, right, o);
    }
  }

  /** Behind what was replaced the last byte is that of the replacement, or comes later. */
  lemma SameLast(left: Text, m: Text, right: Text, o: nat)
    requires m != [] && !IdentifierContinue(m[|m| - 1]) && |left| + |m| <= o <= |left + m + right|
    ensures EndsInIdentifier((left + m + right)[..o]) == EndsInIdentifier(right[..o - |left| - |m|])
  {
    hide IdentifierContinue;
    var k := o - |left| - |m|;
    assert (left + m + right)[..o] == left + m + right[..k];
    if k > 0 {
      assert (left + m + right[..k])[o - 1] == right[..k][k - 1];
    }
  }

  // What a stage does to the stages before it, and to itself.

  /** Whatever the stage replaces, the matches of `other` are shy of what it writes. */
  ghost predicate KeepsAway(other: Spec, spec: Spec) {
    forall v: Text, m: Text :: IsInstance(other, v) && IsInstance(spec, m) ==>
      exists c: nat :: Agrees(m, Written(spec, m), c) && Shy(v, Written(spec, m), c) && c < |v|
  }

  lemma ReplacingKeepsQuiet(other: Spec, spec: Spec, h: Text, m: Text, rest: Text)
    requires KeepsAway(other, spec) && IsInstance(spec, m) && Quiet(other, h + (m + rest))
    ensures Quiet(other, h + Written(spec, m) + rest)
  {
    hide IsInstance, Shy, Agrees, At, Written, EndsInIdentifier;
    var n := Written(spec, m);
    var now := h + n + rest;
    Reassociate(h, m, rest);
    forall v: Text, o: nat | IsInstance(other, v) && At(now, o, v) && o <= |now| ensures IsBlocked(other, now[..o]) {
      var c: nat :| Agrees(m, n, c) && Shy(v, n, c) && c < |v|;
      var was := ShyWasThere(v, h, m, n, rest, c, o);
    }
  }

  ghost predicate HasWritten(spec: Spec) {
    forall m :: IsInstance(spec, m) ==> Written(spec, m) != []
  }

  /** A stage keeps quiet what all its replacements keep away from. */
  lemma StageKeepsQuiet(other: Spec, spec: Spec, text: Text)
    requires IsReplacing(spec) && HasWritten(spec) && KeepsAway(other, spec) && Quiet(other, text)
    ensures Quiet(other, spec.Run(text))
  {
    hide IsReplacing, KeepsAway, Quiet, IsInstance, Written, CanMatch, Spec.Run;
    var inv := (h: Text, rest: Text) => Quiet(other, h + rest);
    forall h: Text, b: Byte, rest: Text | inv(h, [b] + rest) ensures inv(h + [b], rest) {
      Reassociate(h, [b], rest);
    }
    forall h: Text, m: Text, rest: Text | IsInstance(spec, m)
      && inv(h, m + rest) ensures inv(h + Written(spec, m), rest) {
      ReplacingKeepsQuiet(other, spec, h, m, rest);
    }
    ReplacingIsValid(spec);
    assert [] + text == text;
    StageKeeps(spec, text, inv);
    assert spec.Run(text) + [] == spec.Run(text);
  }

  /** Among what is written the stage has nothing left to do. */
  ghost predicate QuietSoFar(spec: Spec, h: Text, rest: Text) {
    forall v: Text, o: nat :: IsInstance(spec, v) && At(h + rest, o, v) && o < |h| ==> IsBlocked(spec, (h + rest)[..o])
  }

  lemma CopyingKeepsQuietSoFar(spec: Spec, h: Text, b: Byte, rest: Text)
    requires QuietSoFar(spec, h, [b] + rest) && !CanMatch(spec, h, [b] + rest)
    ensures QuietSoFar(spec, h + [b], rest)
  {
    hide IsInstance, At, IsBlocked;
    Reassociate(h, [b], rest);
    var text := h + ([b] + rest);
    forall v: Text, o: nat | IsInstance(spec, v) && At(text, o, v) && o < |h + [b]| ensures IsBlocked(spec, text[..o]) {
      if o == |h| {
        assert text[o..] == [b] + rest && text[..o] == h;
        AtBegins(text, o, v);
      }
    }
  }

  lemma ReplacingKeepsQuietSoFar(spec: Spec, h: Text, m: Text, rest: Text)
    requires KeepsAway(spec, spec) && IsInstance(spec, m) && QuietSoFar(spec, h, m + rest)
    ensures QuietSoFar(spec, h + Written(spec, m), rest)
  {
    hide IsInstance, Shy, At, Written, EndsInIdentifier, Agrees;
    var n := Written(spec, m);
    var now := h + n + rest;
    Reassociate(h, m, rest);
    forall v: Text, o: nat | IsInstance(spec, v) && At(now, o, v) && o < |h + n| ensures IsBlocked(spec, now[..o]) {
      var c: nat :| Agrees(m, n, c) && Shy(v, n, c) && c < |v|;
      ShyMeans(v, h, n, rest, c, o);
      var was := ShyWasThere(v, h, m, n, rest, c, o);
    }
  }

  /** A stage whose matches are shy of its own replacements leaves nothing for a second pass. */
  lemma StageBecomesQuiet(spec: Spec, text: Text)
    requires IsReplacing(spec) && HasWritten(spec) && KeepsAway(spec, spec)
    requires forall v :: IsInstance(spec, v) ==> v != []
    ensures Quiet(spec, spec.Run(text))
  {
    hide IsReplacing, KeepsAway, Quiet, QuietSoFar, IsInstance, Written, CanMatch, IsBlocked, Spec.Run;
    var inv := (h: Text, rest: Text) => QuietSoFar(spec, h, rest);
    forall h: Text, b: Byte, rest: Text | inv(h, [b] + rest) && !CanMatch(spec, h, [b] + rest)
      ensures inv(h + [b], rest)
    {
      CopyingKeepsQuietSoFar(spec, h, b, rest);
    }
    forall h: Text, m: Text, rest: Text | IsInstance(spec, m) && !IsBlocked(spec, h) && inv(h, m + rest)
      ensures inv(h + Written(spec, m), rest)
    {
      ReplacingKeepsQuietSoFar(spec, h, m, rest);
    }
    ReplacingIsValid(spec);
    NothingWrittenYet(spec, text);
    StageKeeps(spec, text, inv);
    QuietAtEnd(spec, spec.Run(text));
  }

  lemma NothingWrittenYet(spec: Spec, text: Text)
    ensures QuietSoFar(spec, [], text)
  {
  }

  lemma QuietAtEnd(spec: Spec, text: Text)
    requires QuietSoFar(spec, text, []) && forall v :: IsInstance(spec, v) ==> v != []
    ensures Quiet(spec, text)
  {
    hide IsInstance, At, IsBlocked;
    assert text + [] == text;
    forall v: Text, o: nat | IsInstance(spec, v) && At(text, o, v) && o <= |text| ensures IsBlocked(spec, text[..o]) {
      AtIsWithin(text, o, v);
    }
  }

  // How to tell by single bytes that a literal is shy.

  /** No byte of `v` is byte `d` of `n`, and what comes before it from `c` on does not end `v`. */
  lemma NoCoverForward(v: Text, n: Text, c: nat, d: nat)
    requires v != [] && c <= d < |n| && n[d] !in v && v[|v| - 1] !in n[c..d]
    ensures NoCover(v, n, c)
  {
    hide At;
    forall left: Text, right: Text, o: nat | At(left + n + right, o, v) && o <= |left| + c
      ensures o + |v| <= |left| + c
    {
      var text := left + n + right;
      if o + |v| > |left| + d {
        AtHasByte(text, o, v, |left| + d);
        assert text[|left| + d] == n[d];
      } else if o + |v| > |left| + c {
        var k := o + |v| - 1 - |left|;
        AtHasByte(text, o, v, |left| + k);
        assert text[|left| + k] == n[k] == n[c..d][k - c];
      }
    }
  }

  /** No byte of `v` is byte `d` of `n`, and what comes behind it up to `c` does not begin `v`. */
  lemma NoCoverBackward(v: Text, n: Text, c: nat, d: nat)
    requires v != [] && d <= c < |n| && n[d] !in v && v[0] !in n[d + 1..c + 1]
    ensures NoCover(v, n, c)
  {
    hide At;
    forall left: Text, right: Text, o: nat | At(left + n + right, o, v) && o <= |left| + c
      ensures o + |v| <= |left| + c
    {
      var text := left + n + right;
      if o + |v| > |left| + c {
        if o <= |left| + d {
          CoveredByte(v, n, left, right, o, d);
        } else {
          AtHasByte(text, o, v, o);
          assert text[o] == n[o - |left|] == n[d + 1..c + 1][o - |left| - d - 1];
        }
      }
    }
  }

  /** Byte `d` of `n` fixes how `v` can lie over it, and then byte `e` differs. */
  lemma NoCoverAligned(v: Text, n: Text, c: nat, d: nat, e: nat)
    requires v != [] && d <= c < |n| && v[0] !in n[d + 1..c + 1]
    requires forall k :: 0 <= k < |v| && v[k] == n[d] ==> k == d
    requires e < |v| && e < |n| && v[e] != n[e]
    ensures NoCover(v, n, c)
  {
    hide At;
    forall left: Text, right: Text, o: nat | At(left + n + right, o, v) && o <= |left| + c
      ensures o + |v| <= |left| + c
    {
      var text := left + n + right;
      if o + |v| > |left| + c {
        if o <= |left| + d {
          CoveredByte(v, n, left, right, o, d);
          CoveredByte(v, n, left, right, o, e);
        } else {
          AtHasByte(text, o, v, o);
          assert text[o] == n[o - |left|] == n[d + 1..c + 1][o - |left| - d - 1];
        }
      }
    }
  }

  lemma CoveredByte(v: Text, n: Text, left: Text, right: Text, o: nat, d: nat)
    requires At(left + n + right, o, v) && o <= |left| + d < o + |v| && d < |n|
    ensures v[|left| + d - o] == n[d]
  {
    hide At;
    AtHasByte(left + n + right, o, v, |left| + d);
    assert (left + n + right)[|left| + d] == n[d];
  }

  lemma NoStartConcat(v: Text, a: Text, b: Text)
    requires NoStart(v, a) && NoStart(v, b)
    ensures NoStart(v, a + b)
  {
    hide At;
    forall t: nat, rest: Text | t < |a + b| ensures !At(a + b + rest, t, v) {
      Reassociate(a, b, rest);
      if t >= |a| {
        assert (a + b + rest)[|a|..] == b + rest;
        AtShifts(a + b + rest, |a|, t - |a|, v);
      }
    }
  }

  /** The first byte is not there. */
  lemma NoStartWithout(v: Text, x: Text)
    requires v != [] && v[0] !in x
    ensures NoStart(v, x)
  {
    hide At;
    forall t: nat, rest: Text | t < |x| ensures !At(x + rest, t, v) {
      if At(x + rest, t, v) {
        AtHasByte(x + rest, t, v, t);
      }
    }
  }

  /** The two differ somewhere, with `v` from `k` on laid over the beginning of `x`. */
  predicate Clashes(v: Text, k: nat, x: Text) {
    exists i: nat :: i < |x| && k + i < |v| && x[i] != v[k + i]
  }

  /** `v` needs a byte that the first part does not hold, and then clashes with the second. */
  lemma NoStartInHole(v: Text, hole: Text, x: Text, j: nat)
    requires j < |v| && v[j] !in hole && NoStart(v, x)
    requires forall k: nat :: 0 < k <= j ==> Clashes(v, k, x)
    ensures NoStart(v, hole + x)
  {
    hide At;
    forall t: nat, rest: Text | t < |hole| ensures !At(hole + x + rest, t, v) {
      var text, k := hole + x + rest, |hole| - t;
      if At(text, t, v) {
        if k > j {
          AtHasByte(text, t, v, t + j);
          assert text[t + j] == hole[t + j];
        } else {
          assert Clashes(v, k, x);
          var i: nat :| i < |x| && k + i < |v| && x[i] != v[k + i];
          AtHasByte(text, t, v, |hole| + i);
          assert text[|hole| + i] == x[i];
        }
      }
    }
    forall t: nat, rest: Text | |hole| <= t < |hole + x| ensures !At(hole + x + rest, t, v) {
      Reassociate(hole, x, rest);
      assert (hole + x + rest)[|hole|..] == x + rest;
      AtShifts(hole + x + rest, |hole|, t - |hole|, v);
    }
  }

  /** One of the first three characters of `w` is not what `s` has from `t` on. */
  predicate DiffersFrom(s: string, t: nat, w: string)
    requires t < |s| && w != ""
  {
    || s[t] != w[0]
    || (|w| > 1 && t + 1 < |s| && s[t + 1] != w[1])
    || (|w| > 2 && t + 2 < |s| && s[t + 2] != w[2])
  }

  lemma DifferenceAt(s: string, t: nat, w: string) returns (i: nat)
    requires t < |s| && w != "" && DiffersFrom(s, t, w)
    ensures i < |w| && t + i < |s| && s[t + i] != w[i]
  {
    i := if s[t] != w[0] then 0 else if |w| > 1 && t + 1 < |s| && s[t + 1] != w[1] then 1 else 2;
  }

  /** Wherever `w` is laid over `s` the two differ. */
  predicate NoWord(w: string, s: string) {
    w != "" && forall t :: 0 <= t < |s| ==> DiffersFrom(s, t, w)
  }

  predicate IsPlainChar(c: char) {
    c < 128 as char && c != '?'
  }

  lemma DifferentBytes(a: char, b: char)
    requires a != b && IsPlainChar(b)
    ensures AsciiByte(a) != AsciiByte(b)
  {
    AsciiByteIsCode(a);
    AsciiByteIsCode(b);
  }

  lemma NoStartInLiteral(v: Text, w: string, s: string)
    requires NoWord(w, s) && Ascii(w) <= v && forall i :: 0 <= i < |w| ==> IsPlainChar(w[i])
    ensures NoStart(v, Ascii(s))
  {
    hide At, AsciiByte, IsPlainChar;
    var x := Ascii(s);
    forall t: nat, rest: Text | t < |x| ensures !At(x + rest, t, v) {
      var i := DifferenceAt(s, t, w);
      DifferentBytes(s[t + i], w[i]);
      if At(x + rest, t, v) {
        AtHasByte(x + rest, t, v, t + i);
        assert (x + rest)[t + i] == x[t + i] && v[i] == v[..|w|][i] == Ascii(w)[i];
      }
    }
  }

  /** With `s` from any of its bytes up to `j` on laid over the beginning of `c`, the two differ. */
  predicate Parted(s: string, j: nat, c: string) {
    && j < |s| && c != ""
    && forall k :: 0 < k <= j ==> DiffersFrom(s, k, c)
  }

  predicate ArePlain(s: string) {
    forall i :: 0 <= i < |s| ==> IsPlainChar(s[i])
  }

  lemma PartedClashes(v: Text, s: string, j: nat, c: string, x: Text, k: nat)
    requires Ascii(s) <= v && ArePlain(s) && Parted(s, j, c) && Ascii(c) <= x && 0 < k <= j
    ensures Clashes(v, k, x)
  {
    var i := DifferenceAt(s, k, c);
    hide AsciiByte, IsPlainChar, Parted, DiffersFrom;
    DifferentBytes(c[i], s[k + i]);
    assert x[i] == x[..|c|][i] == Ascii(c)[i];
    assert v[k + i] == v[..|s|][k + i] == Ascii(s)[k + i];
  }

  /** A literal that begins like `s` does not begin in a part without byte `j` of it, before `x`. */
  lemma NoStartBefore(v: Text, s: string, j: nat, hole: Text, c: string, x: Text)
    requires Ascii(s) <= v && ArePlain(s) && Parted(s, j, c) && AsciiByte(s[j]) !in hole
    requires Ascii(c) <= x && NoStart(v, x)
    ensures NoStart(v, hole + x)
  {
    hide AsciiByte, IsPlainChar, Parted, Clashes, NoStart, ArePlain;
    assert j < |s| by { PartedIndex(s, j, c); }
    assert v[j] == v[..|s|][j] == Ascii(s)[j];
    forall k: nat | 0 < k <= j ensures Clashes(v, k, x) {
      PartedClashes(v, s, j, c, x, k);
    }
    NoStartInHole(v, hole, x, j);
  }

  lemma PartedIndex(s: string, j: nat, c: string)
    requires Parted(s, j, c)
    ensures j < |s|
  {
  }

  lemma NoWordConcat(w: string, a: string, b: string)
    requires NoWord(w, a) && NoWord(w, b)
    ensures NoWord(w, a + b)
  {
    var s := a + b;
    forall t | 0 <= t < |s| ensures DiffersFrom(s, t, w) {
      if t < |a| {
        assert DiffersFrom(a, t, w);
      } else {
        assert DiffersFrom(b, t - |a|, w);
      }
    }
  }

  lemma NoStartTail(v: Text, x: Text, k: nat)
    requires NoStart(v, x) && k <= |x|
    ensures NoStart(v, x[k..])
  {
    hide At;
    forall t: nat, rest: Text | t < |x[k..]| ensures !At(x[k..] + rest, t, v) {
      assert (x + rest)[k..] == x[k..] + rest;
      AtShifts(x + rest, k, t, v);
    }
  }

  predicate Lacks(s: string, c: char) {
    forall i :: 0 <= i < |s| ==> s[i] != c
  }

  lemma AsciiLacks(s: string, c: char)
    requires Lacks(s, c) && IsPlainChar(c)
    ensures AsciiByte(c) !in Ascii(s)
  {
    hide AsciiByte, IsPlainChar;
    forall i | 0 <= i < |s| ensures Ascii(s)[i] != AsciiByte(c) {
      DifferentBytes(s[i], c);
    }
  }

  /** `v` does not touch what follows `a`: it lacks byte `d` of `b`, and does not end before. */
  lemma ShyBehind(v: Text, a: Text, b: Text, tail: Text, d: nat)
    requires v != [] && d < |b| && b[d] !in v && v[|v| - 1] !in b[..d]
    requires NoStart(v, b) && NoStart(v, tail)
    ensures Shy(v, a + b + tail, |a|)
  {
    hide NoStart, NoCover;
    var n, c := a + b + tail, |a|;
    assert n[c..c + d] == b[..d] && n[c + d] == b[d];
    NoCoverForward(v, n, c, c + d);
    NoStartConcat(v, b, tail);
    NoStartTail(v, b + tail, 1);
    Reassociate(a, b, tail);
    assert n[c + 1..] == (b + tail)[1..];
  }

  lemma LastByteNotIn(s: string, last: char, r: string)
    requires s != "" && s[|s| - 1] == last && Lacks(r, last) && IsPlainChar(last)
    ensures Ascii(s)[|s| - 1] !in Ascii(r)
  {
    AsciiLacks(r, last);
  }

  lemma AgreesUpTo(a: Text, x: Text, y: Text)
    requires x != [] && y != [] && !IdentifierContinue(x[|x| - 1]) && !IdentifierContinue(y[|y| - 1])
    ensures Agrees(a + x, a + y, |a|)
  {
    hide IdentifierContinue;
    assert (a + x)[..|a|] == a == (a + y)[..|a|];
  }

  lemma LiteralKeepsAway(v: Text, other: Text, m: Text, n: Text, c: nat)
    requires Agrees(m, n, c) && Shy(v, n, c) && c < |v|
    ensures KeepsAway(LiteralStage(Replacing(v, other)), LiteralStage(Replacing(m, n)))
  {
    hide Agrees, Shy;
    var a, b := LiteralStage(Replacing(v, other)), LiteralStage(Replacing(m, n));
    assert Written(b, m) == n;
    assert Agrees(m, Written(b, m), c) && Shy(v, Written(b, m), c);
  }

  /** `v` does not touch what follows `a`: it lacks byte `d` of `a`, and does not begin behind it. */
  lemma ShyBefore(v: Text, a: Text, tail: Text, d: nat)
    requires v != [] && tail != [] && d < |a| && a[d] !in v && v[0] !in a[d + 1..] && v[0] != tail[0]
    requires NoStart(v, tail)
    ensures Shy(v, a + tail, |a|)
  {
    hide NoStart, NoCover;
    var n, c := a + tail, |a|;
    assert n[d + 1..c + 1] == a[d + 1..] + [tail[0]];
    NoCoverBackward(v, n, c, d);
    NoStartTail(v, tail, 1);
    assert n[c + 1..] == tail[1..];
  }

  /** `v` does not touch what follows `a`: byte `d` fixes how it would lie, and then byte `e` differs. */
  lemma ShyAligned(v: Text, a: Text, tail: Text, d: nat, e: nat)
    requires v != [] && tail != [] && d < |a| && v[0] !in a[d + 1..] && v[0] != tail[0]
    requires forall k :: 0 <= k < |v| && v[k] == a[d] ==> k == d
    requires e < |v| && e <= |a| && v[e] != (a + [tail[0]])[e]
    requires NoStart(v, tail)
    ensures Shy(v, a + tail, |a|)
  {
    hide NoStart, NoCover;
    var n, c := a + tail, |a|;
    assert n[d + 1..c + 1] == a[d + 1..] + [tail[0]];
    assert n[e] == (a + [tail[0]])[e];
    NoCoverAligned(v, n, c, d, e);
    NoStartTail(v, tail, 1);
    assert n[c + 1..] == tail[1..];
  }

  /** An expression holds identifier bytes and, with members, dots. */
  lemma {:induction false} ExpressionBytes(syntax: Syntax, e: Text)
    requires IsExpression(syntax, e)
    ensures e != [] && forall b <- e :: Extends(syntax, b)
    decreases |e|
  {
    if IsIdentifier(e) {
      forall b | b in e ensures Extends(syntax, b) {
        var i :| 0 <= i < |e| && e[i] == b;
      }
    } else {
      var n := FirstSegment(syntax, e);
      ExpressionBytes(syntax, e[n + 1..]);
      forall b | b in e ensures Extends(syntax, b) {
        var i :| 0 <= i < |e| && e[i] == b;
        assert i < n ==> e[..n][i] == b;
        assert i > n ==> e[n + 1..][i - n - 1] == b;
      }
    }
  }

  /** `v` does not touch what follows `a`: it lacks byte `b`, and none of its ends is an end of `o + hole` or `o`. */
  lemma ShyOfHole(v: Text, a: Text, o: Byte, hole: Text, x: Text, b: Byte)
    requires v != [] && x != [] && x[0] == b && b !in v && v[|v| - 1] != o && v[|v| - 1] !in hole
    requires NoStart(v, hole + x)
    ensures Shy(v, a + [o] + (hole + x), |a|)
  {
    hide NoStart, NoCover;
    var n, c := a + [o] + (hole + x), |a|;
    var d := c + 1 + |hole|;
    assert n[d] == b;
    assert n[c..d] == [o] + hole;
    NoCoverForward(v, n, c, d);
    assert n[c + 1..] == hole + x;
  }

  // A literal that has one of some texts before it wherever it occurs.

  ghost predicate IsLed(v: Text, ps: seq<Text>, text: Text) {
    forall o: nat :: At(text, o, v) && o <= |text| ==> exists p :: p in ps && EndsWith(text[..o], p)
  }

  /** A byte that ends every path. */
  predicate IsGuard(b: Byte) {
    b == 0x20 || b == DOUBLE_QUOTE || b == SINGLE_QUOTE
  }

  predicate IsGuarded(m: Text) {
    exists i :: 0 <= i < |m| && IsGuard(m[i]) && SLASH !in m[i + 1..]
  }

  predicate IsPath(p: Text) {
    p == [] || (p[0] == SLASH && forall b <- p :: !IsGuard(b))
  }

  /** A path that ends behind a guarded text does not begin in it. */
  lemma PathBehindGuard(left: Text, m: Text, right: Text, p: Text)
    requires IsGuarded(m) && IsPath(p) && EndsWith(left + m + right, p)
    ensures EndsWith(right, p)
  {
    hide IsGuard;
    var i :| 0 <= i < |m| && IsGuard(m[i]) && SLASH !in m[i + 1..];
    var text := left + m + right;
    var a := |text| - |p|;
    var g := |left| + i;
    if |p| > |right| {
      if a <= g {
        assert text[g] == m[i] && text[a..][g - a] == text[g] == p[g - a];
        assert p[g - a] in p;
      } else {
        assert text[a] == m[a - |left|] == m[i + 1..][a - g - 1];
        assert p[0] == text[a..][0] == text[a];
      }
    } else {
      assert text[a..] == right[|right| - |p|..];
    }
  }

  lemma ReplacingKeepsLed(v: Text, ps: seq<Text>, left: Text, m: Text, n: Text, right: Text)
    requires IsLed(v, ps, left + m + right) && Shy(v, n, 0) && IsGuarded(m)
    requires forall p :: p in ps ==> IsPath(p)
    ensures IsLed(v, ps, left + n + right)
  {
    hide Shy, At, EndsWith, IsGuarded, IsPath;
    var was, now := left + m + right, left + n + right;
    forall o: nat | At(now, o, v) && o <= |now| ensures exists p :: p in ps && EndsWith(now[..o], p) {
      ShyMeans(v, left, n, right, 0, o);
      if o + |v| <= |left| {
        assert was[..|left|] == left == now[..|left|];
        SameBegin(was, now, |left|, o, v);
      } else {
        var k := o - |left| - |n|;
        assert was[|left| + |m|..] == right == now[|left| + |n|..];
        AtShifts(was, |left| + |m|, k, v);
        AtShifts(now, |left| + |n|, k, v);
        assert was[..|left| + |m| + k] == left + m + right[..k] && now[..o] == left + n + right[..k];
        var p :| p in ps && EndsWith(was[..|left| + |m| + k], p);
        PathBehindGuard(left, m, right[..k], p);
        EndsWithLonger(left + n, right[..k], p);
      }
    }
  }

  /** A stage that replaces guarded matches, by texts the literal is shy of, keeps it led. */
  lemma StageKeepsLed(spec: Spec, v: Text, ps: seq<Text>, text: Text)
    requires IsReplacing(spec) && HasWritten(spec) && IsLed(v, ps, text)
    requires forall p :: p in ps ==> IsPath(p)
    requires forall m :: IsInstance(spec, m) ==> IsGuarded(m) && Shy(v, Written(spec, m), 0)
    ensures spec.Valid() && IsLed(v, ps, spec.Run(text))
  {
    hide IsReplacing, IsLed, IsInstance, Written, CanMatch, IsBlocked, Spec.Run, IsGuarded, IsPath, Shy;
    ReplacingIsValid(spec);
    var inv := (h: Text, rest: Text) => IsLed(v, ps, h + rest);
    forall h: Text, b: Byte, rest: Text | inv(h, [b] + rest) ensures inv(h + [b], rest) {
      Reassociate(h, [b], rest);
    }
    forall h: Text, m: Text, rest: Text | IsInstance(spec, m)
      && inv(h, m + rest) ensures inv(h + Written(spec, m), rest) {
      Reassociate(h, m, rest);
      ReplacingKeepsLed(v, ps, h, m, Written(spec, m), rest);
    }
    assert [] + text == text;
    StageKeeps(spec, text, inv);
    assert spec.Run(text) + [] == spec.Run(text);
  }

  lemma NoStartOfLonger(r: Text, v: Text, x: Text)
    requires r <= v && NoStart(r, x)
    ensures NoStart(v, x)
  {
    hide At;
    forall t: nat, rest: Text | t < |x| ensures !At(x + rest, t, v) {
      if At(x + rest, t, v) {
        assert v == r + v[|r|..];
        AtConcat(x + rest, t, r, v[|r|..]);
      }
    }
  }

  /** A literal that begins nowhere in `n`, and needs a byte that it lacks, or ends before it, does not touch `n`. */
  lemma ShyOfAll(v: Text, n: Text, d: nat)
    requires v != [] && d < |n| && n[d] !in v && v[|v| - 1] !in n[..d] && NoStart(v, n)
    ensures Shy(v, n, 0)
  {
    hide NoStart, NoCover;
    assert n[0..d] == n[..d];
    NoCoverForward(v, n, 0, d);
    NoStartTail(v, n, 1);
  }
}
