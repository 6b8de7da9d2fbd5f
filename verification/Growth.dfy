/** How much longer a text can get: no counter overflows on a body that is not enormous. */
module Growth {
  import opened Bytes
  import opened LiteralSpec
  import opened ExpressionSpec
  import opened Stages
  import opened Responses

  /** What a stage can make of one byte, at most. */
  function Factor(spec: Spec): (n: nat)
    ensures n >= 1
  {
    match spec
    case LiteralStage(rule) => 1 + |rule.mode.replacement|
    case ExpressionStage(p) =>
      1 + (match p.replacement case Prefix(replacement) => |replacement| case Template(template) => |template|)
    case BufferedStage(_) => 1
  }

  /** What a chain of stages can make of one byte. */
  function Product(specs: seq<Spec>): (n: nat)
    ensures n >= 1
  {
    if specs == [] then 1
    else
      AtLeastOne(Product(specs[..|specs| - 1]), Factor(specs[|specs| - 1]));
      Product(specs[..|specs| - 1]) * Factor(specs[|specs| - 1])
  }

  lemma AtLeastOne(a: nat, b: nat)
    requires a >= 1 && b >= 1
    ensures a * b >= a >= 1
  {
  }

  lemma Distributes(f: nat, a: nat, b: nat)
    ensures f * (a + b) == f * a + f * b
  {
  }

  lemma Grows(f: nat, n: nat)
    requires f >= 1
    ensures f * n >= n
    ensures n >= 1 ==> f * n >= f
  {
  }

  lemma {:induction false} LiteralGrows(rule: Rule, text: Text, i: nat)
    requires rule.Valid() && i <= |text|
    ensures |Substitute(rule, text, i)| <= (1 + |rule.mode.replacement|) * (|text| - i)
    decreases |text| - i
  {
    hide Substitute, At;
    SubstituteUnfolds(rule, text, i);
    var f := 1 + |rule.mode.replacement|;
    if i == |text| {
    } else if At(text, i, rule.source) {
      var n := |rule.source|;
      LiteralGrows(rule, text, i + n);
      RenderedIsOneOfTwo(rule, text, i);
      Grows(f, n);
      Distributes(f, n, |text| - i - n);
    } else {
      LiteralGrows(rule, text, i + 1);
      Distributes(f, 1, |text| - i - 1);
    }
  }

  lemma {:induction false} TemplateGrows(template: Text, e: Text, i: nat)
    requires i <= |template| && MARKER != []
    ensures |Substitute(Rule(MARKER, Exact(e)), template, i)| <= (1 + |e|) * (|template| - i)
    decreases |template| - i
  {
    LiteralGrows(Rule(MARKER, Exact(e)), template, i);
  }

  lemma MarkerIsNotEmpty()
    ensures MARKER != []
  {
  }

  lemma PrefixedGrows(r: nat, e: nat, n: nat)
    requires e <= n && n >= 1
    ensures r + e <= (1 + r) * n
  {
    Grows(n, r);
    Distributes(n, 1, r);
  }

  lemma RenderedTemplateGrows(template: Text, e: Text, n: nat)
    requires |e| < n
    ensures |RenderTemplate(template, e)| <= (1 + |template|) * n
  {
    hide Substitute, MARKER;
    MarkerIsNotEmpty();
    TemplateGrows(template, e, 0);
    MoreTimes(1 + |e|, n, |template|);
    Distributes(n, 1, |template|);
  }

  /** A match gives at most its length times the factor. */
  lemma RenderGrows(p: Pattern, e: Text, n: nat)
    requires |e| < n && |e| + |p.suffix| <= n
    ensures |Render(p, e)| <= Factor(ExpressionStage(p)) * n
  {
    hide RenderTemplate;
    match p.replacement
    case Prefix(replacement) => PrefixedGrows(|replacement|, |e| + |p.suffix|, n);
    case Template(template) => RenderedTemplateGrows(template, e, n);
  }

  lemma MoreTimes(a: nat, b: nat, n: nat)
    requires a <= b
    ensures a * n <= b * n
  {
  }

  lemma {:induction false} ExpressionGrows(p: Pattern, text: Text, i: nat, after: bool)
    requires p.Valid() && i <= |text|
    ensures |Rewrite(p, text, i, after)| <= Factor(ExpressionStage(p)) * (|text| - i)
    decreases |text| - i
  {
    hide Rewrite, MatchAt, Render, Factor, ExpressionSpec.Expression, EndsInIdentifier, IdentifierContinue;
    var f := Factor(ExpressionStage(p));
    if i == |text| {
      RewriteOfNothing(p, text, after);
    } else {
      RewriteUnfolds(p, text, i, after);
      match MatchAt(p, text, i, after)
      case Some(n) =>
        var e := ExpressionSpec.Expression(p, text, i, n);
        ExpressionLength(p, text, i, n);
        RenderGrows(p, e, n);
        ExpressionGrows(p, text, i + n, EndsInIdentifier(Render(p, e)));
        Distributes(f, n, |text| - i - n);
      case None =>
        ExpressionGrows(p, text, i + 1, IdentifierContinue(text[i]));
        Distributes(f, 1, |text| - i - 1);
    }
  }

  lemma ExpressionLength(p: Pattern, text: Text, i: nat, n: nat)
    requires p.Valid() && |p.prefix| + |p.suffix| <= n && i + n <= |text|
    ensures |ExpressionSpec.Expression(p, text, i, n)| + |p.suffix| <= n
            && |ExpressionSpec.Expression(p, text, i, n)| < n
  {
  }

  lemma StageGrows(spec: Spec, body: Text)
    requires spec.Valid() && !spec.BufferedStage?
    ensures |spec.Run(body)| <= Factor(spec) * |body|
  {
    hide Substitute, Rewrite;
    match spec
    case LiteralStage(rule) => LiteralGrows(rule, body, 0);
    case ExpressionStage(p) => ExpressionGrows(p, body, 0, false);
  }

  lemma {:induction false} ComposeGrows(specs: seq<Spec>, body: Text)
    requires AllValid(specs) && forall i :: 0 <= i < |specs| ==> !specs[i].BufferedStage?
    ensures |Compose(specs, body)| <= Product(specs) * |body|
    decreases |specs|
  {
    hide Factor, Spec.Run, Spec.Valid;
    if specs != [] {
      var init, last := specs[..|specs| - 1], specs[|specs| - 1];
      ComposeGrows(init, body);
      StageGrows(last, Compose(init, body));
      MoreTimes(|Compose(init, body)|, Product(init) * |body|, Factor(last));
      assert Factor(last) * (Product(init) * |body|) == Product(init) * Factor(last) * |body|;
    }
  }

  lemma {:induction false} LongerChainsGrowMore(specs: seq<Spec>, i: nat)
    requires i <= |specs|
    ensures Product(specs[..i]) <= Product(specs)
    decreases |specs|
  {
    hide Factor;
    if i < |specs| {
      var init := specs[..|specs| - 1];
      LongerChainsGrowMore(init, i);
      assert init[..i] == specs[..i];
      AtLeastOne(Product(init), Factor(specs[|specs| - 1]));
    } else {
      assert specs[..i] == specs;
    }
  }

  /** A body overflows nothing unless, grown by every stage but the last, it could outgrow 64 bits. */
  lemma SmallBodiesNeverOverflow(specs: seq<Spec>, body: Text)
    requires AllValid(specs) && specs != []
    requires forall i :: 0 <= i < |specs| - 1 ==> !specs[i].BufferedStage?
    requires Product(specs[..|specs| - 1]) * |body| < 0x1_0000_0000_0000_0000
    ensures NeverOverflows(specs, body)
  {
    hide Compose, Product, Spec.Valid;
    var init := specs[..|specs| - 1];
    forall n, i | 0 <= n <= |body| && 0 <= i < |specs|
      ensures |Compose(specs[..i], body[..n])| <= USIZE_MAX
    {
      ComposeGrows(specs[..i], body[..n]);
      LongerChainsGrowMore(init, i);
      assert init[..i] == specs[..i];
      MoreTimes(Product(specs[..i]), Product(init), n);
      MoreTimes(n, |body|, Product(init));
    }
  }
}
