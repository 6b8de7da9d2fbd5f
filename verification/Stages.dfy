/** The three kinds of stage, what each computes on a whole text, and what a chain of them computes. */
module Stages {
  import opened Bytes
  import opened Utf8
  import opened LiteralSpec
  import opened LiteralRewriters
  import opened ExpressionSpec
  import opened ExpressionRewriters

  datatype Spec =
    | BufferedStage(transform: Text -> Text)
    | LiteralStage(rule: Rule)
    | ExpressionStage(pattern: Pattern)
  {
    predicate Valid() {
      && (LiteralStage? ==> rule.Valid())
      && (ExpressionStage? ==> pattern.Valid())
    }

    /** The whole-text function of the stage. */
    function Run(body: Text): Text
      requires Valid()
    {
      match this
      case BufferedStage(transform) => transform(body)
      case LiteralStage(rule) => Substitute(rule, body, 0)
      case ExpressionStage(pattern) => Rewrite(pattern, body, 0, false)
    }

    /** Only literal stages reject input: when it cannot be UTF-8, or overflows their counter. */
    predicate Accepts(text: Text) {
      LiteralStage? ==> |text| <= USIZE_MAX && Tail([], text).Some?
    }

    /** Well-formed text stays well formed. */
    ghost predicate PreservesUtf8()
      requires Valid()
    {
      forall body :: Tail([], body) == Some([]) ==> Tail([], Run(body)) == Some([])
    }

    /** The literals of the stage are well-formed text; nothing is known of a transform. */
    predicate Utf8Literals() {
      match this
      case BufferedStage(_) => false
      case LiteralStage(rule) => Tail([], rule.source) == Some([]) && Tail([], rule.mode.replacement) == Some([])
      case ExpressionStage(pattern) => ExpressionSpec.Utf8Literals(pattern)
    }
  }

  lemma LiteralsPreserveUtf8(spec: Spec)
    requires spec.Valid() && spec.Utf8Literals()
    ensures spec.PreservesUtf8()
  {
    forall body: Text | Tail([], body) == Some([])
      ensures Tail([], spec.Run(body)) == Some([])
    {
      hide Tail, Substitute, Rewrite;
      assert body[0..] == body;
      match spec
      case LiteralStage(rule) => SubstitutePreservesUtf8(rule, body, 0, []);
      case ExpressionStage(pattern) => RewritePreservesUtf8(pattern, body, 0, false, []);
    }
  }

  predicate AllValid(specs: seq<Spec>) {
    forall i :: 0 <= i < |specs| ==> specs[i].Valid()
  }

  /** f_n(...f_1(body)). */
  function Compose(specs: seq<Spec>, body: Text): Text
    requires AllValid(specs)
  {
    if specs == [] then body else specs[|specs| - 1].Run(Compose(specs[..|specs| - 1], body))
  }

  lemma ComposeStep(specs: seq<Spec>, i: nat, body: Text)
    requires AllValid(specs) && i < |specs|
    ensures Compose(specs[..i + 1], body) == specs[i].Run(Compose(specs[..i], body))
  {
    assert specs[..i + 1][..i] == specs[..i];
  }

  lemma {:induction false} ComposeConcat(a: seq<Spec>, b: seq<Spec>, body: Text)
    requires AllValid(a) && AllValid(b)
    ensures Compose(a + b, body) == Compose(b, Compose(a, body))
    decreases |b|
  {
    if b == [] {
      assert a + b == a;
    } else {
      assert (a + b)[..|a + b| - 1] == a + b[..|b| - 1];
      ComposeConcat(a, b[..|b| - 1], body);
    }
  }

  lemma {:induction false} ComposePreservesUtf8(specs: seq<Spec>, body: Text)
    requires AllValid(specs)
    requires forall i :: 0 <= i < |specs| ==> specs[i].PreservesUtf8()
    requires Tail([], body) == Some([])
    ensures Tail([], Compose(specs, body)) == Some([])
    decreases |specs|
  {
    hide Tail;
    if specs != [] {
      ComposePreservesUtf8(specs[..|specs| - 1], body);
      assert specs[|specs| - 1].PreservesUtf8();
    }
  }

  /** Every stage writes what begins its output for every continuation of its input. */
  ghost predicate Begins(spec: Spec, seen: Text, emitted: Text)
    requires spec.Valid()
  {
    forall rest :: emitted <= spec.Run(seen + rest)
  }

  /** `stream` begins what the stages make of every body that begins with `body`. */
  ghost predicate FlowsOut(specs: seq<Spec>, body: Text, stream: Text)
    requires AllValid(specs)
  {
    forall rest :: stream <= Compose(specs, body + rest)
  }

  lemma BodyFlows(body: Text)
    ensures FlowsOut([], body, body)
  {
  }

  lemma FlowsThrough(specs: seq<Spec>, i: nat, body: Text, stream: Text, emitted: Text)
    requires AllValid(specs) && i < |specs|
    requires FlowsOut(specs[..i], body, stream) && Begins(specs[i], stream, emitted)
    ensures FlowsOut(specs[..i + 1], body, emitted)
  {
    forall rest
      ensures emitted <= Compose(specs[..i + 1], body + rest)
    {
      var before := Compose(specs[..i], body + rest);
      assert before == stream + before[|stream|..];
      ComposeStep(specs, i, body + rest);
    }
  }

  /** No intermediate text outgrows the counters of the literal stages. */
  predicate Fits(specs: seq<Spec>, body: Text)
    requires AllValid(specs)
  {
    forall i :: 0 <= i < |specs| ==> |Compose(specs[..i], body)| <= USIZE_MAX
  }

  /** A chain that validates the body first, and whose stages keep it well formed. */
  ghost predicate Utf8Chain(specs: seq<Spec>) {
    && AllValid(specs) && specs != [] && specs[0].LiteralStage?
    && forall i :: 0 <= i < |specs| - 1 ==> specs[i].PreservesUtf8()
  }

  /** What reaches a later stage of an accepted body is accepted there, wherever it was cut. */
  lemma LaterStagesAccept(specs: seq<Spec>, i: nat, body: Text, stream: Text)
    requires Utf8Chain(specs) && i < |specs| && Fits(specs, body)
    requires Tail([], body).Some? && FlowsOut(specs[..i], body, stream)
    ensures specs[i].Accepts(stream)
  {
    hide Tail, Compose;
    assert body + [] == body && stream <= Compose(specs[..i], body + []);
    AliveIffCompletable(body);
    var rest: Text :| WellFormed(body + rest);
    AcceptedIffWellFormed(body + rest);
    ComposePreservesUtf8(specs[..i], body + rest);
    PrefixIsAlive(stream, Compose(specs[..i], body + rest));
  }

  class BufferedRewriter {
    const transform: Text -> Text
    var pending: Text
    var finished: bool

    ghost var emitted: Text

    ghost predicate Valid()
      reads this
    {
      emitted == if finished then transform(pending) else []
    }

    constructor (transform: Text -> Text)
      ensures Valid() && !finished && this.transform == transform && pending == []
    {
      this.transform := transform;
      pending, finished, emitted := [], false, [];
    }

    method Push(input: Text) returns (r: Result<Text>)
      requires Valid()
      modifies this
      ensures Valid() && finished == old(finished)
      ensures r == if old(finished) then Err(AlreadyFinished) else Ok([])
      ensures pending == if r.Ok? then old(pending) + input else old(pending)
    {
      if finished {
        return Err(AlreadyFinished);
      }
      pending := pending + input;
      return Ok([]);
    }

    method Finish() returns (r: Result<Text>)
      requires Valid()
      modifies this
      ensures Valid() && finished && pending == old(pending)
      ensures r == if old(finished) then Err(AlreadyFinished) else Ok(transform(pending))
    {
      if finished {
        return Err(AlreadyFinished);
      }
      finished := true;
      emitted := transform(pending);
      return Ok(transform(pending));
    }
  }

  /** What a stage object stands for at one moment. */
  datatype Snapshot = Snapshot(seen: Text, emitted: Text, finished: bool, clean: bool)

  datatype Stage =
    | Buffered(buffered: BufferedRewriter)
    | Literal(literal: LiteralRewriter)
    | Expression(expression: ExpressionRewriter)
  {
    ghost function Object(): object {
      match this
      case Buffered(b) => b
      case Literal(l) => l
      case Expression(e) => e
    }

    ghost function Spec(): Spec {
      match this
      case Buffered(b) => BufferedStage(b.transform)
      case Literal(l) => LiteralStage(l.rule)
      case Expression(e) => ExpressionStage(e.pattern)
    }

    /** `clean` says that no input was ever refused, so that all of it is validated and counted. */
    ghost function State(): Snapshot
      reads Object()
    {
      match this
      case Buffered(b) => Snapshot(b.pending, b.emitted, b.finished, true)
      case Literal(l) => Snapshot(l.seen, l.emitted, l.finished, l.validated == l.seen && l.totalBytes == |l.seen|)
      case Expression(e) => Snapshot(e.seen, e.emitted, e.finished, true)
    }

    /** In a pipeline the literal stages have no limit of their own. */
    ghost predicate Valid()
      reads Object()
    {
      match this
      case Buffered(b) => b.Valid()
      case Literal(l) => l.Valid() && l.maxBytes == USIZE_MAX
      case Expression(e) => e.Valid()
    }

    lemma SpecIsValid()
      requires Valid()
      ensures Spec().Valid()
    {
      hide LiteralRewriters.Refines, ExpressionRewriters.Refines;
    }

    lemma WritesAhead()
      requires Valid() && Spec().Valid() && !State().finished
      ensures Begins(Spec(), State().seen, State().emitted)
    {
      hide LiteralRewriters.Refines, ExpressionRewriters.Refines, Substitute, Rewrite;
      match this {
        case Buffered(b) =>
        case Literal(l) =>
          forall rest ensures l.emitted <= LiteralStage(l.rule).Run(l.seen + rest) {
            LiteralRewriters.EmittedIsPrefix(l.rule, l.seen, l.Cursor(), l.emitted, rest);
          }
        case Expression(e) =>
          forall rest ensures e.emitted <= ExpressionStage(e.pattern).Run(e.seen + rest) {
            ExpressionRewriters.EmittedIsPrefix(e.pattern, e.seen, |e.seen| - |e.pending|,
                                                AfterIdentifier(e.previousByte), e.emitted, rest);
          }
      }
    }

    method Push(input: Text) returns (r: Result<Text>)
      requires Valid()
      modifies Object()
      ensures Valid() && State().finished == old(State().finished)
      ensures r.Ok? ==> !old(State().finished)
      ensures r.Ok? ==> State().seen == old(State().seen) + input && State().emitted == old(State().emitted) + r.value
      ensures !old(State().finished) && old(State().clean) ==>
                (r.Ok? <==> Spec().Accepts(old(State().seen) + input)) && (r.Ok? ==> State().clean)
      ensures !old(State().finished) && old(State().clean) && r.Err? ==>
                r.error == if |old(State().seen)| + |input| > USIZE_MAX then TooLarge(USIZE_MAX) else InvalidUtf8
    {
      hide LiteralRewriters.Refines, ExpressionRewriters.Refines;
      match this {
        case Buffered(b) => r := b.Push(input);
        case Literal(l) => r := l.Push(input);
        case Expression(e) => r := e.Push(input);
      }
    }

    method Finish() returns (r: Result<Text>)
      requires Valid()
      modifies Object()
      ensures Valid() && State().finished && State().seen == old(State().seen)
      ensures r.Ok? ==> !old(State().finished) && Spec().Valid()
      ensures r.Ok? ==> State().emitted == old(State().emitted) + r.value == Spec().Run(State().seen)
      ensures !old(State().finished) && old(State().clean) ==>
                State().clean && (r.Ok? <==> Spec().LiteralStage? ==> Tail([], old(State().seen)) == Some([]))
      ensures !old(State().finished) && r.Err? ==> r.error == InvalidUtf8
    {
      hide LiteralRewriters.Refines, ExpressionRewriters.Refines, Substitute, Rewrite;
      SpecIsValid();
      match this {
        case Buffered(b) => r := b.Finish();
        case Literal(l) => r := l.Finish();
        case Expression(e) => r := e.Finish();
      }
    }
  }
}
