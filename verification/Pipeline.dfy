/** The pipeline of stages: every chunking of a body gives the composition of the whole-text functions. */
module Pipelines {
  import opened Bytes
  import opened Utf8
  import opened Stages

  /** Stages `0..i` have processed `body` as one stream: each has read what the one before has written. */
  ghost predicate Wired(specs: seq<Spec>, states: seq<Snapshot>, i: nat, body: Text)
    requires AllValid(specs)
  {
    && 0 < i <= |states| == |specs|
    && states[0].seen == body
    && (forall j :: 1 <= j < i ==> states[j].seen == states[j - 1].emitted)
    && (forall j :: 0 <= j < i ==> states[j].clean)
    && FlowsOut(specs[..i], body, states[i - 1].emitted)
  }

  /** Stages `0..i` have been pushed the chunk that extends the body; `output` is what the last wrote. */
  ghost predicate Advanced(specs: seq<Spec>, before: seq<Snapshot>, states: seq<Snapshot>, i: nat, body: Text,
                           output: Text)
    requires AllValid(specs)
  {
    && |before| == |states| == |specs| && 0 < i <= |specs|
    && (forall j :: i <= j < |specs| ==> states[j] == before[j])
    && Wired(specs, states, i, body)
    && states[i - 1].emitted == before[i - 1].emitted + output
  }

  /** The first stage reads the chunk itself. */
  lemma AdvanceFirst(specs: seq<Spec>, before: seq<Snapshot>, states: seq<Snapshot>, body: Text, output: Text)
    requires AllValid(specs) && 0 < |before| == |states| == |specs| && states == before[0 := states[0]]
    requires states[0].clean && Begins(specs[0], states[0].seen, states[0].emitted) && states[0].seen == body
    requires states[0].emitted == before[0].emitted + output
    ensures Advanced(specs, before, states, 1, body, output)
  {
    assert specs[..0] == [];
    BodyFlows(body);
    FlowsThrough(specs, 0, body, states[0].seen, states[0].emitted);
  }

  /** Each later stage reads what the one before it has just written. */
  lemma AdvanceNext(specs: seq<Spec>, before: seq<Snapshot>, prior: seq<Snapshot>, states: seq<Snapshot>,
                    i: nat, received: Text, body: Text, output: Text, next: Text)
    requires AllValid(specs) && Wired(specs, before, |specs|, received)
    requires Advanced(specs, before, prior, i, body, output) && i < |specs|
    requires |states| == |specs| && states == prior[i := states[i]]
    requires states[i].clean && Begins(specs[i], states[i].seen, states[i].emitted)
    requires states[i].seen == prior[i].seen + output && states[i].emitted == prior[i].emitted + next
    ensures Advanced(specs, before, states, i + 1, body, next)
  {
    FlowsThrough(specs, i, body, states[i].seen, states[i].emitted);
  }

  lemma WiredInitially(specs: seq<Spec>, states: seq<Snapshot>)
    requires AllValid(specs) && 0 < |specs| == |states|
    requires forall i :: 0 <= i < |states| ==> states[i] == Snapshot([], [], false, true)
    ensures Wired(specs, states, |specs|, [])
  {
  }

  /** The facts about one stage that pushing to it needs. */
  lemma StageReads(specs: seq<Spec>, before: seq<Snapshot>, prior: seq<Snapshot>, i: nat,
                   received: Text, body: Text, output: Text)
    requires AllValid(specs) && Wired(specs, before, |specs|, received)
    requires Advanced(specs, before, prior, i, body, output) && i < |specs|
    ensures prior[i].clean && prior[i].seen + output == prior[i - 1].emitted
    ensures Admissible(specs, body) ==> specs[i].Accepts(prior[i].seen + output)
  {
    if Admissible(specs, body) {
      LaterStagesAccept(specs, i, body, prior[i - 1].emitted);
    }
  }

  ghost predicate AllOpen(states: seq<Snapshot>) {
    forall i :: 0 <= i < |states| ==> !states[i].finished
  }

  lemma StillOpen(prior: seq<Snapshot>, states: seq<Snapshot>, i: nat)
    requires AllOpen(prior) && i < |prior| == |states| && states == prior[i := states[i]] && !states[i].finished
    ensures AllOpen(states)
  {
  }

  /** A later stage accepts what arrives, when the body read so far can be UTF-8 and nothing overflows. */
  ghost predicate Admissible(specs: seq<Spec>, body: Text) {
    Utf8Chain(specs) && Fits(specs, body) && Tail([], body).Some?
  }

  /** Stages `0..i` are finished, and with `output` the last of them has written all it will write. */
  ghost predicate Drained(specs: seq<Spec>, before: seq<Snapshot>, i: nat, body: Text, output: Text)
    requires AllValid(specs)
  {
    && 0 < i <= |before| == |specs|
    && before[i - 1].emitted + output == Compose(specs[..i], body)
  }

  lemma DrainFirst(specs: seq<Spec>, before: seq<Snapshot>, states: seq<Snapshot>, body: Text, output: Text)
    requires AllValid(specs) && 0 < |before| == |states| == |specs| && before[0].seen == body
    requires before[0].emitted + output == specs[0].Run(body)
    ensures Drained(specs, before, 1, body, output)
  {
    assert specs[..0] == [];
    ComposeStep(specs, 0, body);
  }

  /** A stage that has been pushed all the one before wrote has its part of the composition to write. */
  lemma DrainNext(specs: seq<Spec>, before: seq<Snapshot>, i: nat, body: Text, output: Text, state: Snapshot,
                  next: Text)
    requires AllValid(specs) && Wired(specs, before, |specs|, body)
    requires Drained(specs, before, i, body, output) && i < |specs|
    requires state.seen == before[i].seen + output
    requires before[i].emitted + next == specs[i].Run(state.seen)
    ensures Drained(specs, before, i + 1, body, next)
  {
    ComposeStep(specs, i, body);
  }

  lemma DrainedMeans(specs: seq<Spec>, before: seq<Snapshot>, body: Text, output: Text)
    requires AllValid(specs) && Drained(specs, before, |specs|, body, output)
    ensures before[|specs| - 1].emitted + output == Compose(specs, body)
  {
    assert specs[..|specs|] == specs;
  }

  /** Stages from `i` on are still open and as they were. */
  ghost predicate OpenFrom(states: seq<Snapshot>, before: seq<Snapshot>, i: nat) {
    |states| == |before| && forall j :: i <= j < |states| ==> states[j] == before[j] && !states[j].finished
  }

  lemma OpenFromAt(states: seq<Snapshot>, before: seq<Snapshot>, i: nat)
    requires OpenFrom(states, before, i) && i < |states|
    ensures states[i] == before[i] && !states[i].finished
  {
  }

  lemma OpenFromNext(prior: seq<Snapshot>, pushed: seq<Snapshot>, states: seq<Snapshot>, before: seq<Snapshot>, i: nat)
    requires OpenFrom(prior, before, i) && i < |prior| == |pushed| == |states|
    requires pushed == prior[i := pushed[i]] && states == pushed[i := states[i]]
    ensures OpenFrom(states, before, i + 1)
  {
  }

  lemma OpenFromFirst(states: seq<Snapshot>, before: seq<Snapshot>)
    requires AllOpen(before) && 0 < |before| == |states| && states == before[0 := states[0]]
    ensures OpenFrom(states, before, 1)
  {
  }

  /** What stage `i` reads when the end arrives is what the composition before it is on the whole body. */
  lemma StageDrains(specs: seq<Spec>, before: seq<Snapshot>, prior: seq<Snapshot>, i: nat, body: Text, output: Text)
    requires AllValid(specs) && Wired(specs, before, |specs|, body) && OpenFrom(prior, before, i)
    requires Drained(specs, before, i, body, output) && i < |specs|
    ensures prior[i].clean && prior[i].seen + output == Compose(specs[..i], body)
    ensures Utf8Chain(specs) && Fits(specs, body) && Tail([], body) == Some([]) ==>
              && |prior[i].seen| + |output| <= USIZE_MAX
              && Tail([], prior[i].seen + output) == Some([])
              && specs[i].Accepts(prior[i].seen + output)
  {
    if Utf8Chain(specs) && Fits(specs, body) && Tail([], body) == Some([]) {
      ComposePreservesUtf8(specs[..i], body);
    }
  }

  class Pipeline {
    const rewriters: seq<Stage>
    const maxBytes: nat
    var totalBytes: nat
    var finished: bool

    /** The body received and the output delivered, for as long as no call has failed. */
    ghost var received: Text
    ghost var delivered: Text
    ghost var intact: bool

    ghost function Objects(): set<object> {
      set s | s in rewriters :: s.Object()
    }

    ghost function Specs(): (specs: seq<Spec>)
      ensures |specs| == |rewriters|
    {
      seq(|rewriters|, i requires 0 <= i < |rewriters| => rewriters[i].Spec())
    }

    ghost function States(): (states: seq<Snapshot>)
      reads Objects()
      ensures |states| == |rewriters|
    {
      seq(|rewriters|, i requires 0 <= i < |rewriters| reads Objects() => rewriters[i].State())
    }

    ghost predicate Sound()
      reads Objects()
    {
      && rewriters != [] && maxBytes <= USIZE_MAX
      && this !in Objects()
      && (forall i, j :: 0 <= i < j < |rewriters| ==> rewriters[i].Object() != rewriters[j].Object())
      && (forall i :: 0 <= i < |rewriters| ==> rewriters[i].Valid())
      && AllValid(Specs())
    }

    ghost predicate Valid()
      reads this, Objects()
    {
      && Sound()
      && (!finished ==> AllOpen(States()))
      && (intact && !finished ==>
            && Wired(Specs(), States(), |rewriters|, received)
            && delivered == States()[|rewriters| - 1].emitted
            && totalBytes == |received|)
    }

    /** Everything delivered begins what is delivered for every continuation of the body. */
    lemma DeliveredIsPrefix(rest: Text)
      requires Valid() && intact && !finished
      ensures delivered <= Compose(Specs(), received + rest)
    {
      assert Specs()[..|rewriters|] == Specs();
    }

    predicate Overflows(n: nat)
      reads this
    {
      totalBytes + n > USIZE_MAX || totalBytes + n > maxBytes
    }

    constructor (rewriters: seq<Stage>, maxBytes: nat)
      requires rewriters != [] && maxBytes <= USIZE_MAX
      requires forall i, j :: 0 <= i < j < |rewriters| ==> rewriters[i].Object() != rewriters[j].Object()
      requires forall i :: 0 <= i < |rewriters| ==>
                 rewriters[i].Valid() && rewriters[i].State() == Snapshot([], [], false, true)
      ensures Valid() && intact && !finished && received == [] && delivered == [] && totalBytes == 0
      ensures this.rewriters == rewriters && this.maxBytes == maxBytes
    {
      this.rewriters, this.maxBytes := rewriters, maxBytes;
      totalBytes, finished := 0, false;
      received, delivered, intact := [], [], true;
      new;
      hide *;
      OpensValid();
    }

    lemma OpensValid()
      requires rewriters != [] && maxBytes <= USIZE_MAX && this !in Objects()
      requires forall i, j :: 0 <= i < j < |rewriters| ==> rewriters[i].Object() != rewriters[j].Object()
      requires forall i :: 0 <= i < |rewriters| ==>
                 rewriters[i].Valid() && rewriters[i].State() == Snapshot([], [], false, true)
      requires received == [] && delivered == [] && totalBytes == 0
      ensures Valid()
    {
      hide Stage.Valid, Stage.State, Stage.Spec, Stage.Object, Wired, Spec.Valid;
      forall i | 0 <= i < |rewriters| ensures Specs()[i].Valid() {
        rewriters[i].SpecIsValid();
      }
      WiredInitially(Specs(), States());
    }

    /** Pushing to one stage leaves every other as it was. */
    method PushStage(i: nat, input: Text) returns (r: Result<Text>)
      requires Sound() && i < |rewriters| && !States()[i].finished
      modifies rewriters[i].Object()
      ensures Sound() && States() == old(States())[i := States()[i]] && !States()[i].finished
      ensures r.Ok? ==> States()[i].seen == old(States()[i].seen) + input
      ensures r.Ok? ==> States()[i].emitted == old(States()[i].emitted) + r.value
      ensures old(States()[i].clean) ==> (r.Ok? <==> Specs()[i].Accepts(old(States()[i].seen) + input))
      ensures old(States()[i].clean) && r.Ok? ==> States()[i].clean
      ensures old(States()[i].clean) && r.Err? ==>
                r.error == if |old(States()[i].seen)| + |input| > USIZE_MAX then TooLarge(USIZE_MAX) else InvalidUtf8
      ensures Begins(Specs()[i], States()[i].seen, States()[i].emitted)
    {
      hide Stage.State, Stage.Valid, Stage.Spec, Spec.Valid, Spec.Accepts, Spec.Run, Begins;
      assert Specs()[i] == rewriters[i].Spec() && States()[i] == rewriters[i].State();
      ghost var before := States();
      r := rewriters[i].Push(input);
      rewriters[i].WritesAhead();
      forall j | 0 <= j < |rewriters| && j != i ensures States()[j] == before[j] && rewriters[j].Valid() {
        assert rewriters[j].Object() != rewriters[i].Object();
      }
    }

    method FinishStage(i: nat) returns (r: Result<Text>)
      requires Sound() && i < |rewriters| && !States()[i].finished
      modifies rewriters[i].Object()
      ensures Sound() && States() == old(States())[i := States()[i]]
      ensures States()[i].seen == old(States()[i].seen)
      ensures r.Ok? ==> States()[i].emitted == old(States()[i].emitted) + r.value == Specs()[i].Run(States()[i].seen)
      ensures old(States()[i].clean) ==>
                States()[i].clean && (r.Ok? <==> Specs()[i].LiteralStage? ==> Tail([], States()[i].seen) == Some([]))
      ensures r.Err? ==> r.error == InvalidUtf8
    {
      hide Stage.State, Stage.Valid, Stage.Spec, Spec.Valid, Spec.Run, Tail;
      assert Specs()[i] == rewriters[i].Spec() && States()[i] == rewriters[i].State();
      ghost var before := States();
      r := rewriters[i].Finish();
      forall j | 0 <= j < |rewriters| && j != i ensures States()[j] == before[j] && rewriters[j].Valid() {
        assert rewriters[j].Object() != rewriters[i].Object();
      }
    }

    method Push(input: Text) returns (r: Result<Text>)
      requires Valid()
      modifies this, Objects()
      ensures Valid() && finished == old(finished)
      ensures totalBytes == if finished || old(totalBytes) + |input| > USIZE_MAX then old(totalBytes)
                            else old(totalBytes) + |input|
      ensures finished ==> r == Err(AlreadyFinished)
      ensures !finished && old(Overflows(|input|)) ==> r == Err(TooLarge(maxBytes))
      // A run without failures so far goes on in one of three ways.
      ensures r.Ok? && old(intact) ==>
              intact && received == old(received) + input && delivered == old(delivered) + r.value
      ensures r.Ok? && old(intact) && Specs()[0].LiteralStage? ==> Completable(received)
      ensures !finished && old(intact) && !old(Overflows(|input|))
              && Utf8Chain(Specs()) && Fits(Specs(), old(received) + input) ==>
                r.Ok? || (r == Err(InvalidUtf8) && !Completable(old(received) + input))
    {
      hide Wired, Compose, Sound, States, Utf8Chain, Fits, AllOpen;
      if finished {
        return Err(AlreadyFinished);
      }
      ghost var wasIntact, body := intact, received + input;
      AliveIffCompletable(body);
      intact := false;
      if totalBytes + |input| > USIZE_MAX {
        return Err(TooLarge(maxBytes));
      }
      totalBytes := totalBytes + |input|;
      if totalBytes > maxBytes {
        return Err(TooLarge(maxBytes));
      }
      r := PushThrough(input, received, wasIntact);
      if r.Ok? && wasIntact {
        received, delivered, intact := body, delivered + r.value, true;
      }
    }

    /** Pushes `input` to the first stage, and what each stage writes to the next one. */
    method PushThrough(input: Text, ghost sofar: Text, ghost wired: bool) returns (r: Result<Text>)
      requires Sound() && AllOpen(States())
      requires wired ==> Wired(Specs(), States(), |rewriters|, sofar) && |sofar| + |input| <= USIZE_MAX
      modifies Objects()
      ensures Sound() && AllOpen(States())
      ensures wired && r.Ok? ==> Wired(Specs(), States(), |rewriters|, sofar + input)
      ensures wired && r.Ok? ==> States()[|rewriters| - 1].emitted == old(States()[|rewriters| - 1].emitted) + r.value
      ensures wired && r.Ok? && Specs()[0].LiteralStage? ==> Tail([], sofar + input).Some?
      ensures wired && Utf8Chain(Specs()) && Fits(Specs(), sofar + input) ==>
                r.Ok? || (r == Err(InvalidUtf8) && Tail([], sofar + input).None?)
    {
      hide *;
      ghost var body, specs, before := sofar + input, Specs(), States();
      OpeningFacts(sofar, body, wired);
      r := PushStage(0, input);
      StillOpen(before, States(), 0);
      if r.Err? {
        return;
      }
      if wired {
        AdvanceFirst(specs, before, States(), body, r.value);
      }
      var output, i := r.value, 1;
      while i < |rewriters|
        invariant 1 <= i <= |rewriters| && Sound() && AllOpen(States())
        invariant wired ==> Advanced(specs, before, States(), i, body, output)
      {
        ghost var prior := States();
        if wired {
          StageReads(specs, before, prior, i, sofar, body, output);
        }
        OpenAt(prior, i);
        r := PushStage(i, output);
        StillOpen(prior, States(), i);
        if r.Err? {
          return;
        }
        if wired {
          AdvanceNext(specs, before, prior, States(), i, sofar, body, output, r.value);
        }
        output, i := r.value, i + 1;
      }
      if wired {
        AdvancedMeans(specs, before, States(), body, output);
      }
      return Ok(output);
    }

    method Finish() returns (r: Result<Text>)
      requires Valid()
      modifies this, Objects()
      ensures Valid() && finished && totalBytes == old(totalBytes)
      ensures old(finished) ==> r == Err(AlreadyFinished)
      ensures !old(finished) && old(intact) ==> received == old(received)
      ensures r.Ok? && old(intact) ==> intact && delivered == old(delivered) + r.value == Compose(Specs(), received)
      ensures r.Ok? && old(intact) && Specs()[0].LiteralStage? ==> WellFormed(received)
      ensures !old(finished) && old(intact) && Utf8Chain(Specs()) && Fits(Specs(), received) ==>
                r.Ok? || (r == Err(InvalidUtf8) && !WellFormed(received))
    {
      hide Wired, Compose, Sound, States, Utf8Chain, Fits, AllOpen;
      if finished {
        return Err(AlreadyFinished);
      }
      AcceptedIffWellFormed(received);
      ghost var wasIntact := intact;
      intact, finished := false, true;
      r := FinishThrough(received, wasIntact);
      if r.Ok? && wasIntact {
        delivered, intact := delivered + r.value, true;
      }
    }

    /** Finishes the first stage; each later one is pushed what that one wrote last, then finished. */
    method FinishThrough(ghost body: Text, ghost wired: bool) returns (r: Result<Text>)
      requires Sound() && AllOpen(States())
      requires wired ==> Wired(Specs(), States(), |rewriters|, body)
      modifies Objects()
      ensures Sound()
      ensures wired && r.Ok? ==> old(States()[|rewriters| - 1].emitted) + r.value == Compose(Specs(), body)
      ensures wired && r.Ok? && Specs()[0].LiteralStage? ==> Tail([], body) == Some([])
      ensures wired && Utf8Chain(Specs()) && Fits(Specs(), body) ==>
                r.Ok? || (r == Err(InvalidUtf8) && Tail([], body) != Some([]))
    {
      hide *;
      ghost var specs, before := Specs(), States();
      OpeningFacts(body, body, wired);
      r := FinishStage(0);
      if r.Err? {
        return;
      }
      OpenFromFirst(States(), before);
      if wired {
        DrainFirst(specs, before, States(), body, r.value);
      }
      var output, i := r.value, 1;
      while i < |rewriters|
        invariant 1 <= i <= |rewriters| && Sound()
        invariant OpenFrom(States(), before, i)
        invariant wired ==> Drained(specs, before, i, body, output)
      {
        ghost var prior := States();
        if wired {
          StageDrains(specs, before, prior, i, body, output);
        }
        OpenFromAt(prior, before, i);
        r := PushStage(i, output);
        if r.Err? {
          return;
        }
        ghost var pushed := States();
        var next := r.value;
        r := FinishStage(i);
        if r.Err? {
          return;
        }
        if wired {
          DrainNext(specs, before, i, body, output, States()[i], next + r.value);
        }
        OpenFromNext(prior, pushed, States(), before, i);
        output, i := next + r.value, i + 1;
      }
      if wired {
        DrainedMeans(specs, before, body, output);
      }
      return Ok(output);
    }

    lemma OpeningFacts(sofar: Text, body: Text, wired: bool)
      requires Sound() && AllOpen(States())
      requires wired ==> Wired(Specs(), States(), |rewriters|, sofar)
      ensures |rewriters| > 0 && AllValid(Specs()) && !States()[0].finished
      ensures forall i :: 0 <= i < |rewriters| ==> rewriters[i].Object() in Objects()
      ensures wired ==> States()[0].clean && States()[0].seen == sofar
      ensures Specs()[0].Accepts(body) <==> Specs()[0].LiteralStage? ==> |body| <= USIZE_MAX && Tail([], body).Some?
      ensures Utf8Chain(Specs()) ==> Specs()[0].LiteralStage?
      ensures Admissible(Specs(), body) <==> Utf8Chain(Specs()) && Fits(Specs(), body) && Tail([], body).Some?
    {
    }
  }

  lemma OpenAt(states: seq<Snapshot>, i: nat)
    requires AllOpen(states) && i < |states|
    ensures !states[i].finished
  {
  }

  lemma AdvancedMeans(specs: seq<Spec>, before: seq<Snapshot>, states: seq<Snapshot>, body: Text, output: Text)
    requires AllValid(specs) && Advanced(specs, before, states, |specs|, body, output)
    ensures Wired(specs, states, |specs|, body)
    ensures states[|specs| - 1].emitted == before[|specs| - 1].emitted + output
  {
  }
}
