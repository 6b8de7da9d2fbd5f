/** The streaming literal rewriter, proved to compute the whole-text substitution for every chunking. */
module LiteralRewriters {
  import opened Bytes
  import opened Utf8
  import opened LiteralSpec

  /** Bytes of a literal that `insertedPrefix` is about, if the rule prepends. */
  function PrefixOf(mode: Mode): Option<Text> {
    if mode.Prepend? then Some(mode.insertedPrefix) else None
  }

  /** How many trailing input bytes a rule has to remember. */
  function HistoryLength(insertedPrefix: Option<Text>): nat {
    if insertedPrefix.Some? then |insertedPrefix.value| else 0
  }

  /** Does the original input, of which the history is the end, end with the prefix? */
  predicate OriginalInputEndsWithPrefix(insertedPrefix: Option<Text>, history: Text, before: Text) {
    match insertedPrefix
    case None => false
    case Some(prefix) =>
      if prefix == [] then true
      else if |before| >= |prefix| then EndsWith(before, prefix)
      else
        var missing := |prefix| - |before|;
        && |history| >= missing
        && history[|history| - missing..] == prefix[..missing]
        && before == prefix[missing..]
  }

  /** The last |prefix| bytes are enough to decide whether the whole input ends with the prefix. */
  lemma HistorySuffices(prefix: Text, input: Text, before: Text)
    ensures OriginalInputEndsWithPrefix(Some(prefix), Last(input, |prefix|), before)
        <==> EndsWith(input + before, prefix)
  {
    var all := input + before;
    if |before| >= |prefix| {
      assert all[|all| - |prefix|..] == before[|before| - |prefix|..];
    } else if |all| >= |prefix| {
      var missing := |prefix| - |before|;
      LastKeepsTheEnd(input, |prefix|, missing);
      var end := input[|input| - missing..];
      assert all[|all| - |prefix|..] == end + before;
      assert prefix == prefix[..missing] + prefix[missing..];
      SplitEquality(end, before, prefix[..missing], prefix[missing..]);
    }
  }

  lemma LastKeepsTheEnd(input: Text, n: nat, k: nat)
    requires k <= n && k <= |input|
    ensures |Last(input, n)| >= k && Last(input, n)[|Last(input, n)| - k..] == input[|input| - k..]
  {
  }

  lemma SplitEquality(a: Text, b: Text, x: Text, y: Text)
    requires |a| == |x|
    ensures a + b == x + y <==> a == x && b == y
  {
    if a + b == x + y {
      assert a == (a + b)[..|a|] && b == (a + b)[|a|..];
      assert x == (x + y)[..|a|] && y == (x + y)[|a|..];
    }
  }

  /** The history after a further stretch of input. */
  function Remembered(insertedPrefix: Option<Text>, history: Text, input: Text): Text {
    Last(history + input, HistoryLength(insertedPrefix))
  }

  method RememberInput(insertedPrefix: Option<Text>, history: Text, input: Text) returns (updated: Text)
    requires |history| <= HistoryLength(insertedPrefix)
    ensures updated == Remembered(insertedPrefix, history, input)
    ensures |updated| <= HistoryLength(insertedPrefix)
  {
    if insertedPrefix.None? {
      return history;
    }
    var historyLen := |insertedPrefix.value|;
    if historyLen == 0 {
      return history;
    }
    if |input| >= historyLen {
      updated := input[|input| - historyLen..];
      return;
    }
    var remove := if |history| + |input| > historyLen then |history| + |input| - historyLen else 0;
    updated := history;
    if remove > 0 {
      updated := updated[remove..];
    }
    updated := updated + input;
  }

  /** Remembering a stretch on top of a history of the input before it. */
  lemma LastOfConcat(input: Text, more: Text, n: nat)
    ensures Last(Last(input, n) + more, n) == Last(input + more, n)
  {
    if |input| > n {
      assert input + more == input[..|input| - n] + (Last(input, n) + more);
    }
  }

  /**
   * The stage invariant. With `emitted` written and `cursor` bytes of `seen` consumed, substituting
   * what remains gives the substitution of the whole, whatever input is still to come (or, at the
   * end of the stream, given that none is).
   */
  ghost predicate Refines(rule: Rule, seen: Text, cursor: nat, emitted: Text, endOfStream: bool)
    requires rule.Valid() && cursor <= |seen|
  {
    forall rest: Text :: (endOfStream ==> rest == []) ==>
      emitted + Substitute(rule, seen + rest, cursor) == Substitute(rule, seen + rest, 0)
  }

  lemma NothingYet(rule: Rule)
    requires rule.Valid()
    ensures Refines(rule, [], 0, [], false)
  {
    forall rest: Text
      ensures [] + Substitute(rule, [] + rest, 0) == Substitute(rule, [] + rest, 0)
    {
    }
  }

  /** A stretch with no occurrence, and none that later input could begin in it, can be emitted. */
  lemma EmitStretch(rule: Rule, seen: Text, cursor: nat, m: nat, emitted: Text, endOfStream: bool)
    requires rule.Valid() && cursor <= m <= |seen|
    requires Refines(rule, seen, cursor, emitted, endOfStream)
    requires forall j :: cursor <= j < m ==> !At(seen, j, rule.source)
    requires endOfStream || m + |rule.source| <= |seen| + 1
    ensures Refines(rule, seen, m, emitted + seen[cursor..m], endOfStream)
  {
    forall rest: Text | endOfStream ==> rest == []
      ensures emitted + seen[cursor..m] + Substitute(rule, seen + rest, m) == Substitute(rule, seen + rest, 0)
    {
      hide At, Substitute;
      StretchIsCopied(rule, seen, rest, cursor, m);
      Reassociate(emitted, seen[cursor..m], Substitute(rule, seen + rest, m));
    }
  }

  lemma StretchIsCopied(rule: Rule, seen: Text, rest: Text, cursor: nat, m: nat)
    requires rule.Valid() && cursor <= m <= |seen|
    requires forall j :: cursor <= j < m ==> !At(seen, j, rule.source)
    requires rest == [] || m + |rule.source| <= |seen| + 1
    ensures Substitute(rule, seen + rest, cursor) == seen[cursor..m] + Substitute(rule, seen + rest, m)
  {
    hide At;
    forall j | cursor <= j < m
      ensures !At(seen + rest, j, rule.source)
    {
      if rest == [] {
        assert seen + rest == seen;
      } else {
        AtIsStable(seen, rest, j, rule.source);
      }
    }
    SubstituteSkips(rule, seen + rest, cursor, m);
    assert (seen + rest)[cursor..m] == seen[cursor..m];
  }

  /** Enough input has arrived to settle how the occurrence at `m` is rendered. */
  predicate Settled(rule: Rule, seen: Text, m: nat, endOfStream: bool)
    requires m + |rule.source| <= |seen|
  {
    endOfStream || !rule.mode.Append? ||
    var after := seen[m + |rule.source|..];
    |after| >= |rule.mode.insertedSuffix| || !(after <= rule.mode.insertedSuffix)
  }

  lemma SettledRenderingIsFinal(rule: Rule, seen: Text, m: nat, rest: Text, endOfStream: bool)
    requires m + |rule.source| <= |seen|
    requires Settled(rule, seen, m, endOfStream) && (endOfStream ==> rest == [])
    ensures Rendered(rule, seen + rest, m) == Rendered(rule, seen, m)
  {
    var text := seen + rest;
    assert text[..m] == seen[..m];
    if rule.mode.Append? {
      var i, suffix := m + |rule.source|, rule.mode.insertedSuffix;
      if i + |suffix| <= |seen| {
        AtIsStable(seen, rest, i, suffix);
      } else if endOfStream {
        assert text == seen;
      }
    }
  }

  /** A settled occurrence can be replaced. */
  lemma EmitMatch(rule: Rule, seen: Text, m: nat, emitted: Text, endOfStream: bool)
    requires rule.Valid() && At(seen, m, rule.source)
    requires Refines(rule, seen, m, emitted, endOfStream)
    requires Settled(rule, seen, m, endOfStream)
    ensures Refines(rule, seen, m + |rule.source|, emitted + Rendered(rule, seen, m), endOfStream)
  {
    forall rest: Text | endOfStream ==> rest == []
      ensures emitted + Rendered(rule, seen, m) + Substitute(rule, seen + rest, m + |rule.source|)
              == Substitute(rule, seen + rest, 0)
    {
      AtIsStable(seen, rest, m, rule.source);
      SettledRenderingIsFinal(rule, seen, m, rest, endOfStream);
      assert emitted + Rendered(rule, seen, m) + Substitute(rule, seen + rest, m + |rule.source|) ==
             emitted + (Rendered(rule, seen, m) + Substitute(rule, seen + rest, m + |rule.source|));
    }
  }

  /** Input that arrives, and the end of the stream, only narrow what is still to come. */
  lemma MoreInput(rule: Rule, seen: Text, cursor: nat, emitted: Text, input: Text, endOfStream: bool)
    requires rule.Valid() && cursor <= |seen|
    requires Refines(rule, seen, cursor, emitted, false)
    ensures Refines(rule, seen + input, cursor, emitted, endOfStream)
  {
    forall rest: Text | endOfStream ==> rest == []
      ensures emitted + Substitute(rule, seen + input + rest, cursor) == Substitute(rule, seen + input + rest, 0)
    {
      assert seen + (input + rest) == seen + input + rest;
    }
  }

  /** What is emitted so far begins the substitution of every continuation. */
  lemma EmittedIsPrefix(rule: Rule, seen: Text, cursor: nat, emitted: Text, rest: Text)
    requires rule.Valid() && cursor <= |seen|
    requires Refines(rule, seen, cursor, emitted, false)
    ensures emitted <= Substitute(rule, seen + rest, 0)
  {
    assert emitted + Substitute(rule, seen + rest, cursor) == Substitute(rule, seen + rest, 0);
  }

  /** `std::str::from_utf8`: valid, cut short inside the last character, or invalid. */
  datatype Utf8Check = Valid | Incomplete(validUpTo: nat) | Invalid

  function FromUtf8(input: Text): (check: Utf8Check)
    ensures check.Incomplete? ==> check.validUpTo < |input|
  {
    TailIsUnfinishedCharacter(input);
    match Tail([], input)
    case None => Invalid
    case Some(t) => if t == [] then Valid else Incomplete(|input| - |t|)
  }

  class LiteralRewriter {
    const rule: Rule
    const maxBytes: nat
    var totalBytes: nat
    var pending: Text
    var inputHistory: Text
    var utf8Tail: Text
    var finished: bool

    /** All input accepted, and all output written for it. */
    ghost var seen: Text
    ghost var emitted: Text
    /** The input validated since the start or since the last InvalidUtf8. */
    ghost var validated: Text

    ghost function Cursor(): nat
      reads this
      requires |pending| <= |seen|
    {
      |seen| - |pending|
    }

    ghost predicate Valid()
      reads this
    {
      && rule.Valid()
      && |pending| <= |seen|
      && pending == seen[Cursor()..]
      && Refines(rule, seen, Cursor(), emitted, finished)
      && inputHistory == Last(seen[..Cursor()], HistoryLength(PrefixOf(rule.mode)))
      && Tail([], validated) == Some(utf8Tail)
    }

    /** The memory held back between calls. */
    ghost predicate Bounded()
      reads this
    {
      && |utf8Tail| <= 3
      && |inputHistory| <= HistoryLength(PrefixOf(rule.mode))
      && |pending| < |rule.source| + (if rule.mode.Append? then |rule.mode.insertedSuffix| else 0)
    }

    constructor (rule: Rule, maxBytes: nat)
      requires rule.Valid()
      ensures Valid() && Bounded() && !finished
      ensures this.rule == rule && this.maxBytes == maxBytes
      ensures totalBytes == 0 && seen == [] && emitted == [] && validated == []
    {
      this.rule := rule;
      this.maxBytes := maxBytes;
      totalBytes, finished := 0, false;
      pending, inputHistory, utf8Tail := [], [], [];
      seen, emitted, validated := [], [], [];
      new;
      hide Refines;
      NothingYet(rule);
    }

    /** Would the next `n` input bytes exceed the limit, or the counter itself? */
    predicate Overflows(n: nat)
      reads this
    {
      totalBytes + n > USIZE_MAX || totalBytes + n > maxBytes
    }

    method Push(input: Text) returns (r: Result<Text>)
      requires Valid()
      modifies this
      ensures Valid()
      ensures finished == old(finished)
      ensures r.Ok? <==> !old(finished) && !old(Overflows(|input|)) && Tail([], old(validated) + input).Some?
      ensures r.Ok? ==> seen == old(seen) + input && validated == old(validated) + input
                        && emitted == old(emitted) + r.value
      ensures r.Ok? || (r.Err? && r.error == InvalidUtf8) ==> totalBytes == old(totalBytes) + |input|
      ensures r.Ok? || old(Bounded()) ==> Bounded()
      ensures r.Err? ==> seen == old(seen) && emitted == old(emitted)
      ensures r.Err? ==> r.error == if old(finished) then AlreadyFinished
                                    else if old(Overflows(|input|)) then TooLarge(maxBytes) else InvalidUtf8
      ensures r.Err? ==>
              if r.error == InvalidUtf8 then validated == [] && utf8Tail == [] else validated == old(validated)
      ensures old(finished) ==> totalBytes == old(totalBytes)
    {
      assert Tail([], []) == Some([]);
      hide Refines, Tail;
      if finished {
        return Err(AlreadyFinished);
      }
      if totalBytes + |input| > USIZE_MAX {
        return Err(TooLarge(maxBytes));
      }
      totalBytes := totalBytes + |input|;
      if totalBytes > maxBytes {
        return Err(TooLarge(maxBytes));
      }
      var accepted := ValidateUtf8(input);
      if !accepted {
        return Err(InvalidUtf8);
      }
      MoreInput(rule, seen, Cursor(), emitted, input, false);
      DropOfConcat(seen, input, Cursor());
      TakeOfConcat(seen, input, Cursor());
      pending, seen := pending + input, seen + input;
      var output := ProcessAvailable(false);
      TailIsUnfinishedCharacter(validated);
      return Ok(output);
    }

    method Finish() returns (r: Result<Text>)
      requires Valid()
      modifies this
      ensures Valid() && finished
      ensures seen == old(seen) && validated == old(validated) && totalBytes == old(totalBytes)
      ensures old(finished) ==> r == Err(AlreadyFinished)
      ensures !old(finished) ==> (r.Ok? <==> Tail([], validated) == Some([])) && (r.Err? ==> r.error == InvalidUtf8)
      ensures r.Ok? ==> emitted == old(emitted) + r.value && emitted == Substitute(rule, seen, 0)
      ensures r.Err? ==> emitted == old(emitted)
      ensures old(Bounded()) ==> Bounded()
    {
      if finished {
        return Err(AlreadyFinished);
      }
      MoreInput(rule, seen, Cursor(), emitted, [], true);
      assert seen + [] == seen;
      finished := true;
      if utf8Tail != [] {
        return Err(InvalidUtf8);
      }
      var output := ProcessAvailable(true);
      assert emitted + Substitute(rule, seen + [], Cursor()) == Substitute(rule, seen + [], 0);
      return Ok(output);
    }

    /** Reads `input` from state `utf8Tail`, which becomes the new unfinished character. */
    method ValidateUtf8(input: Text) returns (accepted: bool)
      requires Tail([], validated) == Some(utf8Tail)
      modifies this`utf8Tail, this`validated
      ensures accepted <==> Tail([], old(validated) + input).Some?
      ensures validated == if accepted then old(validated) + input else []
      ensures Tail([], validated) == Some(utf8Tail)
    {
      TailIsUnfinishedCharacter(validated);
      TailOfConcat([], validated, input);
      if utf8Tail == [] {
        accepted := ValidateUtf8Slice(input);
        validated := if accepted then validated + input else [];
        return;
      }
      var expectedLen := SequenceLength(utf8Tail[0]);
      var missingLen := expectedLen - |utf8Tail|;
      var boundaryInputLen := if |input| < missingLen then |input| else missingLen;
      var boundary := utf8Tail + input[..boundaryInputLen];
      assert input == input[..boundaryInputLen] + input[boundaryInputLen..];
      TailOfPartial(utf8Tail, input[..boundaryInputLen]);
      TailWithinOneChar(utf8Tail, input[..boundaryInputLen]);
      TailOfConcat(utf8Tail, input[..boundaryInputLen], input[boundaryInputLen..]);
      match FromUtf8(boundary) {
        case Valid =>
          utf8Tail := [];
          accepted := ValidateUtf8Slice(input[boundaryInputLen..]);
        case Incomplete(_) =>
          utf8Tail := utf8Tail + input[..boundaryInputLen];
          accepted := true;
        case Invalid =>
          utf8Tail := [];
          accepted := false;
      }
      validated := if accepted then validated + input else [];
    }

    method ValidateUtf8Slice(input: Text) returns (accepted: bool)
      requires utf8Tail == []
      modifies this`utf8Tail
      ensures accepted <==> Tail([], input).Some?
      ensures utf8Tail == if accepted then Tail([], input).value else []
    {
      TailIsUnfinishedCharacter(input);
      match FromUtf8(input) {
        case Valid => accepted := true;
        case Incomplete(validUpTo) =>
          utf8Tail := utf8Tail + input[validUpTo..];
          accepted := true;
        case Invalid => accepted := false;
      }
    }

    method ProcessAvailable(endOfStream: bool) returns (output: Text)
      requires Valid() && finished == endOfStream
      modifies this`pending, this`inputHistory, this`emitted
      ensures Valid() && emitted == old(emitted) + output
      ensures endOfStream ==> pending == []
      ensures !endOfStream ==>
                |pending| < |rule.source| + (if rule.mode.Append? then |rule.mode.insertedSuffix| else 0)
    {
      hide *;
      var rule, held := rule, pending;
      var source, insertedPrefix := rule.source, PrefixOf(rule.mode);
      var history, consumed := inputHistory, 0;
      output := [];
      ghost var base := BeginProgress(endOfStream);
      ghost var input, written := seen, emitted;

      var found := Find(held, consumed, source);
      while found.Some?
        invariant consumed <= |held| && |history| <= HistoryLength(insertedPrefix)
        invariant found.Some? ==>
                  consumed <= found.value && found.value + |source| <= |held| && At(held, found.value, source)
        invariant written == old(emitted) + output
        invariant Progress(rule, input, base + consumed, written, history, endOfStream)
        invariant IsLeftmost(held, consumed, source, found)
        decreases |held| - consumed
      {
        var position := found.value;
        var beforeMatch := held[consumed..position];
        var alreadyPrefixed := OriginalInputEndsWithPrefix(insertedPrefix, history, beforeMatch);
        CopyUpTo(rule, input, held, base, consumed, position, written, history, endOfStream);
        Reassociate(old(emitted), output, beforeMatch);
        output, written := output + beforeMatch, written + beforeMatch;
        history := RememberInput(insertedPrefix, history, beforeMatch);
        var afterMatch := position + |source|;
        var rendered;
        if rule.mode.Append? {
          var availableAfter := held[afterMatch..];
          var suffix := rule.mode.insertedSuffix;
          if !endOfStream && |availableAfter| < |suffix| && availableAfter <= suffix {
            inputHistory, pending, emitted := history, held[position..], written;
            EndProgress(base + position, endOfStream);
            return;
          }
          rendered := if suffix <= availableAfter then source else rule.mode.replacement;
        } else {
          rendered := if alreadyPrefixed then source else rule.mode.replacement;
        }
        ReplaceMatch(rule, input, held, base, position, written, history, endOfStream, rendered);
        Reassociate(old(emitted), output, rendered);
        output, written := output + rendered, written + rendered;
        history := RememberInput(insertedPrefix, history, source);
        consumed := afterMatch;
        found := Find(held, consumed, source);
      }

      var available := |held| - consumed;
      var emitLen := if endOfStream then available
                     else if available > |source| - 1 then available - (|source| - 1) else 0;
      var stretch := held[consumed..consumed + emitLen];
      if emitLen > 0 {
        CopyUpTo(rule, input, held, base, consumed, consumed + emitLen, written, history, endOfStream);
        Reassociate(old(emitted), output, stretch);
        output, written := output + stretch, written + stretch;
        history := RememberInput(insertedPrefix, history, stretch);
        consumed := consumed + emitLen;
      }
      inputHistory, pending, emitted := history, held[consumed..], written;
      EndProgress(base + consumed, endOfStream);
    }

    /** Progress starts from a valid state... */
    lemma BeginProgress(endOfStream: bool) returns (base: nat)
      requires Valid() && finished == endOfStream
      ensures base <= |seen| && pending == seen[base..] && rule.source != []
      ensures Progress(rule, seen, base + 0, emitted + [], inputHistory, endOfStream)
      ensures |inputHistory| <= HistoryLength(PrefixOf(rule.mode)) && Tail([], validated) == Some(utf8Tail)
    {
      hide Refines;
      base := Cursor();
      assert emitted + [] == emitted;
    }

    /** ...and ends in one. */
    lemma EndProgress(base: nat, endOfStream: bool)
      requires base <= |seen| && pending == seen[base..]
      requires Progress(rule, seen, base, emitted, inputHistory, endOfStream)
      requires finished == endOfStream && Tail([], validated) == Some(utf8Tail)
      ensures Valid()
    {
      hide Refines;
    }
  }

  /** What holds each time round the loop of `ProcessAvailable`, with `cursor` bytes of input consumed. */
  ghost predicate Progress(rule: Rule, seen: Text, cursor: nat, emitted: Text, history: Text, endOfStream: bool) {
    && rule.Valid() && cursor <= |seen|
    && Refines(rule, seen, cursor, emitted, endOfStream)
    && history == Last(seen[..cursor], HistoryLength(PrefixOf(rule.mode)))
  }

  /** Copying `pending[consumed..position]`, which holds no occurrence. */
  lemma CopyUpTo(rule: Rule, seen: Text, pending: Text, base: nat, consumed: nat, position: nat,
                 emitted: Text, history: Text, endOfStream: bool)
    requires base <= |seen| && pending == seen[base..]
    requires consumed <= position <= |pending|
    requires Progress(rule, seen, base + consumed, emitted, history, endOfStream)
    requires exists found ::
               IsLeftmost(pending, consumed, rule.source, found) && (found.Some? ==> position <= found.value)
    requires endOfStream || position + |rule.source| <= |pending| + 1 || position == consumed
    ensures var before := pending[consumed..position];
            && Progress(rule, seen, base + position, emitted + before,
                        Remembered(PrefixOf(rule.mode), history, before), endOfStream)
            && (OriginalInputEndsWithPrefix(PrefixOf(rule.mode), history, before)
                <==> rule.mode.Prepend? && EndsWith(seen[..base + position], rule.mode.insertedPrefix))
  {
    hide Refines;
    var before := pending[consumed..position];
    assert before == seen[base + consumed..base + position];
    assert seen[..base + consumed] + before == seen[..base + position];
    forall j | base + consumed <= j < base + position
      ensures !At(seen, j, rule.source)
    {
      AtShifts(seen, base, j - base, rule.source);
    }
    if position > consumed {
      EmitStretch(rule, seen, base + consumed, base + position, emitted, endOfStream);
    } else {
      assert emitted + before == emitted;
    }
    LastOfConcat(seen[..base + consumed], before, HistoryLength(PrefixOf(rule.mode)));
    if rule.mode.Prepend? {
      HistorySuffices(rule.mode.insertedPrefix, seen[..base + consumed], before);
    }
  }

  /** Replacing the occurrence at `pending[position..]`, once it is settled. */
  lemma ReplaceMatch(rule: Rule, seen: Text, pending: Text, base: nat, position: nat,
                     emitted: Text, history: Text, endOfStream: bool, rendered: Text)
    requires base <= |seen| && pending == seen[base..]
    requires At(pending, position, rule.source)
    requires Progress(rule, seen, base + position, emitted, history, endOfStream)
    requires rule.mode.Append? ==>
               var after := pending[position + |rule.source|..];
               var suffix := rule.mode.insertedSuffix;
               && (endOfStream || |after| >= |suffix| || !(after <= suffix))
               && rendered == if suffix <= after then rule.source else rule.mode.replacement
    requires !rule.mode.Append? ==>
               rendered == if rule.mode.Prepend? && EndsWith(seen[..base + position], rule.mode.insertedPrefix)
                           then rule.source else rule.mode.replacement
    ensures Progress(rule, seen, base + position + |rule.source|, emitted + rendered,
                     Remembered(PrefixOf(rule.mode), history, rule.source), endOfStream)
  {
    hide *;
    ProgressIsValid(rule, seen, base + position, emitted, history, endOfStream);
    RenderedAsSeen(rule, seen, pending, base, position, endOfStream, rendered);
    EmitRendered(rule, seen, base + position, emitted, history, endOfStream);
  }

  lemma ProgressIsValid(rule: Rule, seen: Text, cursor: nat, emitted: Text, history: Text, endOfStream: bool)
    requires Progress(rule, seen, cursor, emitted, history, endOfStream)
    ensures rule.Valid() && cursor <= |seen|
  {
    hide Refines;
  }

  lemma EmitRendered(rule: Rule, seen: Text, m: nat, emitted: Text, history: Text, endOfStream: bool)
    requires Progress(rule, seen, m, emitted, history, endOfStream)
    requires At(seen, m, rule.source) && Settled(rule, seen, m, endOfStream)
    ensures Progress(rule, seen, m + |rule.source|, emitted + Rendered(rule, seen, m),
                     Remembered(PrefixOf(rule.mode), history, rule.source), endOfStream)
  {
    hide Refines, At, Rendered, Settled;
    EmitMatch(rule, seen, m, emitted, endOfStream);
    BeforeAndSource(seen, m, rule.source);
    LastOfConcat(seen[..m], rule.source, HistoryLength(PrefixOf(rule.mode)));
  }

  lemma BeforeAndSource(seen: Text, m: nat, source: Text)
    requires At(seen, m, source)
    ensures m + |source| <= |seen| && seen[..m] + source == seen[..m + |source|]
  {
  }

  /** What `pending` shows of an occurrence is what all the input shows. */
  lemma RenderedAsSeen(rule: Rule, seen: Text, pending: Text, base: nat, position: nat, endOfStream: bool,
                       rendered: Text)
    requires rule.Valid() && base <= |seen| && pending == seen[base..]
    requires At(pending, position, rule.source)
    requires rule.mode.Append? ==>
               var after := pending[position + |rule.source|..];
               var suffix := rule.mode.insertedSuffix;
               && (endOfStream || |after| >= |suffix| || !(after <= suffix))
               && rendered == if suffix <= after then rule.source else rule.mode.replacement
    requires !rule.mode.Append? ==>
               rendered == if rule.mode.Prepend? && EndsWith(seen[..base + position], rule.mode.insertedPrefix)
                           then rule.source else rule.mode.replacement
    ensures var m := base + position;
            At(seen, m, rule.source) && rendered == Rendered(rule, seen, m) && Settled(rule, seen, m, endOfStream)
  {
    AtShifts(seen, base, position, rule.source);
    var after := base + position + |rule.source|;
    assert pending[position + |rule.source|..] == seen[after..];
    if rule.mode.Append? {
      AtBegins(seen, after, rule.mode.insertedSuffix);
    }
  }
}
