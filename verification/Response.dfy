/** Building a pipeline from rules and running a response body through it, chunk by chunk. */
module Responses {
  import opened Bytes
  import opened Utf8
  import opened LiteralSpec
  import LiteralRewriters
  import opened ExpressionSpec
  import ExpressionRewriters
  import opened Stages
  import opened Pipelines

  /** A rule as it is given to the constructors of the pipeline. */
  datatype StageRule =
    | PrefixRule(source: Text, replacement: Text)
    | ExactRule(source: Text, replacement: Text)
    | AppendRule(source: Text, suffix: Text)
    | MemberRule(prefix: Text, suffix: Text, replacementPrefix: Text)
    | TemplateRule(prefix: Text, suffix: Text, template: Text)
    | TransformRule(transform: Text -> Text)

  predicate IsLiteralRule(rule: StageRule) {
    rule.PrefixRule? || rule.ExactRule? || rule.AppendRule?
  }

  /** The literals that must not be empty. */
  function SoughtLiterals(rule: StageRule): seq<Text> {
    match rule
    case PrefixRule(source, _) => [source]
    case ExactRule(source, _) => [source]
    case AppendRule(source, _) => [source]
    case MemberRule(prefix, suffix, _) => [prefix, suffix]
    case TemplateRule(prefix, suffix, _) => [prefix, suffix]
    case TransformRule(_) => []
  }

  /** The literal a stage searches for. */
  function SoughtBy(spec: Spec): Option<Text> {
    match spec
    case LiteralStage(rule) => Some(rule.source)
    case ExpressionStage(pattern) => Some(pattern.prefix)
    case BufferedStage(_) => None
  }

  /** The stage of a rule, or why there is none. */
  function SpecOf(rule: StageRule): (r: Result<Spec>)
    ensures r.Ok? ==> r.value.Valid() && (r.value.LiteralStage? <==> IsLiteralRule(rule))
    ensures r.Ok? && !rule.TransformRule? ==> SoughtBy(r.value) == Some(SoughtLiterals(rule)[0])
    ensures r == Err(EmptySource) <==> [] in SoughtLiterals(rule)
    ensures r == Err(InvalidReplacement) <==> rule.PrefixRule? && !EndsWith(rule.replacement, rule.source)
    ensures r.Err? ==> r.error == EmptySource || r.error == InvalidReplacement
  {
    match rule
    case PrefixRule(source, replacement) =>
      if !EndsWith(replacement, source) then Err(InvalidReplacement)
      else if source == [] then Err(EmptySource)
      else Ok(LiteralStage(Rule(source, Prepend(replacement, replacement[..|replacement| - |source|]))))
    case ExactRule(source, replacement) =>
      if source == [] then Err(EmptySource) else Ok(LiteralStage(Rule(source, Exact(replacement))))
    case AppendRule(source, suffix) =>
      if source == [] then Err(EmptySource) else Ok(LiteralStage(Rule(source, Append(source + suffix, suffix))))
    case MemberRule(prefix, suffix, replacementPrefix) =>
      if prefix == [] || suffix == [] then Err(EmptySource)
      else Ok(ExpressionStage(Pattern(prefix, suffix, Prefix(replacementPrefix), MemberExpression)))
    case TemplateRule(prefix, suffix, template) =>
      if prefix == [] || suffix == [] then Err(EmptySource)
      else Ok(ExpressionStage(Pattern(prefix, suffix, Template(template), Identifier)))
    case TransformRule(transform) => Ok(BufferedStage(transform))
  }

  /** The stages of all rules, or the error of the first rule that has one. */
  function SpecsOf(rules: seq<StageRule>): (r: Result<seq<Spec>>)
    ensures r.Ok? ==> AllValid(r.value) && |r.value| == |rules|
    ensures r.Ok? ==> forall i :: 0 <= i < |rules| ==> SpecOf(rules[i]) == Ok(r.value[i])
  {
    if rules == [] then Ok([])
    else match SpecOf(rules[0])
         case Err(error) => Err(error)
         case Ok(first) =>
           match SpecsOf(rules[1..])
           case Err(error) => Err(error)
           case Ok(others) => Ok([first] + others)
  }

  /** A pipeline starts from literal rules, of which there must be one; the others are added to it. */
  function PipelineSpecs(literals: seq<StageRule>, others: seq<StageRule>): (r: Result<seq<Spec>>)
    ensures r.Ok? ==> AllValid(r.value) && r.value != []
  {
    match SpecsOf(literals)
    case Err(error) => Err(error)
    case Ok(first) =>
      if first == [] then Err(EmptyRules)
      else match SpecsOf(others)
           case Err(error) => Err(error)
           case Ok(rest) => Ok(first + rest)
  }

  method NewStage(spec: Spec) returns (stage: Stage)
    requires spec.Valid()
    ensures fresh(stage.Object()) && stage.Spec() == spec
    ensures stage.Valid() && stage.State() == Snapshot([], [], false, true)
  {
    hide LiteralRewriters.LiteralRewriter.Valid, LiteralRewriters.LiteralRewriter.Bounded,
      ExpressionRewriters.ExpressionRewriter.Valid;
    match spec {
      case BufferedStage(transform) =>
        var b := new BufferedRewriter(transform);
        stage := Buffered(b);
      case LiteralStage(rule) =>
        var l := new LiteralRewriters.LiteralRewriter(rule, USIZE_MAX);
        stage := Literal(l);
      case ExpressionStage(pattern) =>
        var e := new ExpressionRewriters.ExpressionRewriter(pattern);
        stage := Expression(e);
    }
  }

  method NewPipeline(specs: seq<Spec>, maxBytes: nat) returns (pipeline: Pipeline)
    requires AllValid(specs) && specs != [] && maxBytes <= USIZE_MAX
    ensures fresh(pipeline) && fresh(pipeline.Objects())
    ensures pipeline.Valid() && pipeline.intact && !pipeline.finished && pipeline.totalBytes == 0
    ensures pipeline.received == [] && pipeline.delivered == []
    ensures pipeline.Specs() == specs && pipeline.maxBytes == maxBytes
  {
    hide Stage.State, Stage.Valid, Pipeline.Valid, Spec.Valid;
    var stages: seq<Stage> := [];
    for i := 0 to |specs|
      invariant |stages| == i
      invariant forall j :: 0 <= j < i ==> fresh(stages[j].Object()) && stages[j].Spec() == specs[j]
      invariant forall j :: 0 <= j < i ==> stages[j].Valid() && stages[j].State() == Snapshot([], [], false, true)
      invariant forall j, k :: 0 <= j < k < i ==> stages[j].Object() != stages[k].Object()
    {
      var stage := NewStage(specs[i]);
      stages := stages + [stage];
    }
    pipeline := new Pipeline(stages, maxBytes);
  }

  /** One call of the body filter: push the chunk, and at the end of the stream finish. */
  method FilterBody(pipeline: Pipeline, chunk: Text, endOfStream: bool) returns (r: Result<Text>)
    requires pipeline.Valid() && pipeline.intact && !pipeline.finished
    modifies pipeline, pipeline.Objects()
    ensures pipeline.Valid() && (r.Ok? ==> pipeline.intact && pipeline.finished == endOfStream)
    ensures r.Ok? ==> pipeline.received == old(pipeline.received) + chunk
    ensures r.Ok? ==> pipeline.delivered == old(pipeline.delivered) + r.value
    ensures r.Ok? && endOfStream ==> pipeline.delivered == Compose(pipeline.Specs(), pipeline.received)
    ensures r.Ok? ==> |pipeline.received| <= pipeline.maxBytes
    ensures r.Ok? && pipeline.Specs()[0].LiteralStage? ==>
              if endOfStream then WellFormed(pipeline.received) else Completable(pipeline.received)
    ensures var body := old(pipeline.received) + chunk;
            Utf8Chain(pipeline.Specs()) && Fits(pipeline.Specs(), body) && r.Err? ==>
              r.error == if |body| > pipeline.maxBytes then TooLarge(pipeline.maxBytes) else InvalidUtf8
    ensures var body := old(pipeline.received) + chunk;
            Utf8Chain(pipeline.Specs()) && Fits(pipeline.Specs(), body) ==>
              (r.Ok? <==> |body| <= pipeline.maxBytes && (if endOfStream then WellFormed(body) else Completable(body)))
  {
    hide Pipeline.Sound, Wired, Compose, Fits, WellFormed;
    Counted(pipeline);
    WellFormedIsCompletable(pipeline.received + chunk);
    r := pipeline.Push(chunk);
    if r.Err? || !endOfStream {
      return;
    }
    var last := pipeline.Finish();
    if last.Err? {
      return last;
    }
    return Ok(r.value + last.value);
  }

  lemma Counted(pipeline: Pipeline)
    requires pipeline.Valid() && pipeline.intact && !pipeline.finished
    ensures pipeline.totalBytes == |pipeline.received| && pipeline.maxBytes <= USIZE_MAX
  {
    hide Wired;
  }

  lemma WellFormedIsCompletable(body: Text)
    ensures WellFormed(body) ==> Completable(body)
  {
    if WellFormed(body) {
      assert body + [] == body;
    }
  }

  /** How a run over `chunks` and `last` ends, after `received`: with no error, or with the first one. */
  ghost function FirstError(maxBytes: nat, received: Text, chunks: seq<Text>, last: Text): Option<RewriteError>
    decreases |chunks|
  {
    var body := received + if chunks == [] then last else chunks[0];
    if |body| > maxBytes then Some(TooLarge(maxBytes))
    else if chunks == [] then (if WellFormed(body) then None else Some(InvalidUtf8))
    else if !Completable(body) then Some(InvalidUtf8)
    else FirstError(maxBytes, body, chunks[1..], last)
  }

  /** The part of the body that has arrived with chunk `k`; with the last one, all of it. */
  function Arrived(received: Text, chunks: seq<Text>, last: Text, k: nat): Text
    requires k <= |chunks|
  {
    if k == |chunks| then received + Flatten(chunks) + last else received + Flatten(chunks[..k + 1])
  }

  /** Chunk `k` makes the text malformed, or, at the end, leaves it so. */
  ghost predicate Refused(received: Text, chunks: seq<Text>, last: Text, k: nat)
    requires k <= |chunks|
  {
    var body := Arrived(received, chunks, last, k);
    if k == |chunks| then !WellFormed(body) else !Completable(body)
  }

  /** Some chunk is refused while the text is still within the limit. */
  ghost predicate RefusedInTime(maxBytes: nat, received: Text, chunks: seq<Text>, last: Text) {
    exists k :: 0 <= k <= |chunks|
                && Refused(received, chunks, last, k) && |Arrived(received, chunks, last, k)| <= maxBytes
  }

  /**
   * How a run ends: with InvalidUtf8 when a chunk is refused before one exceeds the limit, otherwise with
   * TooLarge when the body is too long. Only a body with both faults leaves the choice to the chunks.
   */
  lemma {:induction false} FirstErrorExactlyWhen(maxBytes: nat, received: Text, chunks: seq<Text>, last: Text)
    ensures var body := received + Flatten(chunks) + last;
            var first := FirstError(maxBytes, received, chunks, last);
            && (first == Some(InvalidUtf8) <==> RefusedInTime(maxBytes, received, chunks, last))
            && (first == Some(TooLarge(maxBytes)) <==>
                  |body| > maxBytes && !RefusedInTime(maxBytes, received, chunks, last))
            && (first == None <==> |body| <= maxBytes && WellFormed(body))
            && (|body| <= maxBytes && !WellFormed(body) ==> first == Some(InvalidUtf8))
            && (|body| > maxBytes && Completable(body) ==> first == Some(TooLarge(maxBytes)))
    decreases |chunks|
  {
    hide WellFormed, Completable, Arrived, RefusedInTime;
    var body := received + Flatten(chunks) + last;
    if chunks == [] {
      assert body == received + last;
      RefusedAtTheEnd(maxBytes, received, last);
    } else {
      var next := received + chunks[0];
      assert body == next + Flatten(chunks[1..]) + last;
      Reassociate(next, Flatten(chunks[1..]), last);
      WellFormedIsCompletable(body);
      BeginningIsCompletable(next, Flatten(chunks[1..]) + last);
      RefusedNowOrLater(maxBytes, received, chunks, last);
      FirstErrorExactlyWhen(maxBytes, next, chunks[1..], last);
    }
  }

  lemma RefusedAtTheEnd(maxBytes: nat, received: Text, last: Text)
    ensures RefusedInTime(maxBytes, received, [], last) <==>
            !WellFormed(received + last) && |received + last| <= maxBytes
  {
    hide WellFormed, Completable;
    assert received + Flatten([]) + last == received + last;
    assert Refused(received, [], last, 0) <==> !WellFormed(received + last);
  }

  lemma BeginningIsCompletable(a: Text, b: Text)
    ensures Completable(a + b) ==> Completable(a)
  {
    hide WellFormed;
    if Completable(a + b) {
      var rest: Text :| WellFormed(a + b + rest);
      Reassociate(a, b, rest);
    }
  }

  lemma RefusedNowOrLater(maxBytes: nat, received: Text, chunks: seq<Text>, last: Text)
    requires chunks != []
    ensures var next := received + chunks[0];
            && (RefusedInTime(maxBytes, received, chunks, last) <==>
                  || (!Completable(next) && |next| <= maxBytes)
                  || RefusedInTime(maxBytes, next, chunks[1..], last))
            && (RefusedInTime(maxBytes, next, chunks[1..], last) ==> |next| <= maxBytes)
  {
    hide WellFormed, Completable, Arrived;
    var next, later := received + chunks[0], chunks[1..];
    ArrivedFirst(received, chunks, last);
    forall k: nat | k <= |later|
      ensures Arrived(received, chunks, last, k + 1) == Arrived(next, later, last, k)
      ensures |Arrived(next, later, last, k)| >= |next|
      ensures Refused(received, chunks, last, k + 1) <==> Refused(next, later, last, k)
    {
      ArrivedLater(received, chunks, last, k);
    }
    assert Refused(received, chunks, last, 0) <==> !Completable(next);
    if RefusedInTime(maxBytes, received, chunks, last) {
      var k :| 0 <= k <= |chunks| && Refused(received, chunks, last, k)
        && |Arrived(received, chunks, last, k)| <= maxBytes;
      if k > 0 {
        assert Refused(next, later, last, k - 1);
      }
    }
    if RefusedInTime(maxBytes, next, later, last) {
      var k :| 0 <= k <= |later| && Refused(next, later, last, k) && |Arrived(next, later, last, k)| <= maxBytes;
      assert Refused(received, chunks, last, k + 1);
    }
  }

  lemma ArrivedFirst(received: Text, chunks: seq<Text>, last: Text)
    requires chunks != []
    ensures Arrived(received, chunks, last, 0) == received + chunks[0]
  {
    assert chunks[..1] == [chunks[0]];
    assert Flatten(chunks[..1]) == chunks[0] + Flatten([]) == chunks[0];
  }

  lemma ArrivedLater(received: Text, chunks: seq<Text>, last: Text, k: nat)
    requires k < |chunks|
    ensures Arrived(received, chunks, last, k + 1) == Arrived(received + chunks[0], chunks[1..], last, k)
    ensures |Arrived(received + chunks[0], chunks[1..], last, k)| >= |received + chunks[0]|
  {
    if k + 1 == |chunks| {
      Reassociate(received, chunks[0], Flatten(chunks[1..]));
    } else {
      assert chunks[..k + 2][1..] == chunks[1..][..k + 1];
      Reassociate(received, chunks[0], Flatten(chunks[1..][..k + 1]));
    }
  }

  /** The same body within one limit: cut after its first byte it is malformed, in one piece too long. */
  lemma ErrorDependsOnTheChunks()
    ensures FirstError(1, [], [[0xFF]], [0x20, 0x20]) == Some(InvalidUtf8)
    ensures FirstError(1, [], [], [0xFF, 0x20, 0x20]) == Some(TooLarge(1))
    ensures Flatten([[0xFF]]) + [0x20, 0x20] == Flatten([]) + [0xFF, 0x20, 0x20]
  {
    assert Flatten([[0xFF]]) == [0xFF] + Flatten([]);
    var body: Text := [] + [0xFF];
    assert body == [0xFF] && Tail([], body).None?;
    AliveIffCompletable(body);
  }

  /** No stage counter overflows anywhere on the way to `body`. */
  ghost predicate NeverOverflows(specs: seq<Spec>, body: Text)
    requires AllValid(specs)
  {
    forall n :: 0 <= n <= |body| ==> Fits(specs, body[..n])
  }

  lemma FitsSoFar(specs: seq<Spec>, body: Text, sofar: Text)
    requires AllValid(specs) && NeverOverflows(specs, body) && sofar <= body
    ensures Fits(specs, sofar)
  {
    hide Fits;
    assert body[..|sofar|] == sofar;
  }

  lemma ChunkArrives(maxBytes: nat, received: Text, chunks: seq<Text>, i: nat, last: Text)
    requires i < |chunks|
    ensures var next := received + chunks[i];
            && received + (Flatten(chunks[i..]) + last) == next + (Flatten(chunks[i + 1..]) + last)
            && next <= received + (Flatten(chunks[i..]) + last)
            && FirstError(maxBytes, received, chunks[i..], last) ==
               if |next| > maxBytes then Some(TooLarge(maxBytes))
               else if !Completable(next) then Some(InvalidUtf8)
               else FirstError(maxBytes, next, chunks[i + 1..], last)
  {
    assert chunks[i..][0] == chunks[i] && chunks[i..][1..] == chunks[i + 1..];
    Reassociate(chunks[i], Flatten(chunks[i + 1..]), last);
    Reassociate(received, chunks[i], Flatten(chunks[i + 1..]) + last);
  }

  lemma LastArrives(maxBytes: nat, received: Text, chunks: seq<Text>, last: Text)
    ensures received + (Flatten(chunks[|chunks|..]) + last) == received + last
    ensures FirstError(maxBytes, received, chunks[|chunks|..], last) ==
            if |received + last| > maxBytes then Some(TooLarge(maxBytes))
            else if WellFormed(received + last) then None else Some(InvalidUtf8)
  {
    assert chunks[|chunks|..] == [] && [] + last == last;
  }

  /**
   * A whole response: the body filter is called for every chunk and, with `last`, at the end of the
   * stream. Whatever the chunks are, the output is that of the composed whole-text functions on the
   * whole body, and the error, if any, is the first that the limit or the encoding calls for.
   */
  method RewriteBody(literals: seq<StageRule>, others: seq<StageRule>, maxBytes: nat, chunks: seq<Text>, last: Text)
    returns (r: Result<Text>)
    requires maxBytes <= USIZE_MAX
    ensures PipelineSpecs(literals, others).Err? ==> r == Err(PipelineSpecs(literals, others).error)
    ensures PipelineSpecs(literals, others).Ok? ==>
              var specs, body := PipelineSpecs(literals, others).value, Flatten(chunks) + last;
              && (r.Ok? ==> r.value == Compose(specs, body) && |body| <= maxBytes)
              && (r.Ok? && specs[0].LiteralStage? ==> WellFormed(body))
              && (Utf8Chain(specs) && NeverOverflows(specs, body) ==>
                    match FirstError(maxBytes, [], chunks, last)
                    case None => r.Ok?
                    case Some(error) => r == Err(error))
  {
    hide *;
    var built := PipelineSpecs(literals, others);
    if built.Err? {
      return Err(built.error);
    }
    var specs := built.value;
    ghost var body, whole := Flatten(chunks) + last, FirstError(maxBytes, [], chunks, last);
    ghost var calm := Utf8Chain(specs) && NeverOverflows(specs, body);
    var pipeline := NewPipeline(specs, maxBytes);
    var output: Text := [];
    var i := 0;
    assert chunks[0..] == chunks && [] + body == body;
    while i < |chunks|
      invariant 0 <= i <= |chunks|
      invariant fresh(pipeline) && fresh(pipeline.Objects())
      invariant pipeline.Valid() && pipeline.intact && !pipeline.finished
      invariant pipeline.Specs() == specs && pipeline.maxBytes == maxBytes
      invariant pipeline.received + (Flatten(chunks[i..]) + last) == body
      invariant pipeline.delivered == output
      invariant calm ==> FirstError(maxBytes, pipeline.received, chunks[i..], last) == whole
    {
      ghost var received := pipeline.received + chunks[i];
      ChunkArrives(maxBytes, pipeline.received, chunks, i, last);
      if calm {
        FitsSoFar(specs, body, received);
      }
      r := FilterBody(pipeline, chunks[i], false);
      if r.Err? {
        return;
      }
      output := output + r.value;
      i := i + 1;
    }
    LastArrives(maxBytes, pipeline.received, chunks, last);
    if calm {
      FitsSoFar(specs, body, body);
    }
    r := FilterBody(pipeline, last, true);
    if r.Err? {
      return;
    }
    output := output + r.value;
    return Ok(output);
  }
}
