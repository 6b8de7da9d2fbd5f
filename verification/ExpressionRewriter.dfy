/** The streaming expression rewriter, proved to compute the whole-text rewriting for every chunking. */
module ExpressionRewriters {
  import opened Bytes
  import opened LiteralSpec
  import opened ExpressionSpec

  method ScanIdentifierSegment(input: Text, start: nat, endOfStream: bool) returns (scan: SegmentScan)
    requires start <= |input|
    ensures scan == ScanSegment(input, start, endOfStream)
  {
    var cursor := start;
    if cursor >= |input| {
      return if endOfStream then NoSegment else MoreNeeded;
    }
    if !IdentifierStart(input[cursor]) {
      return NoSegment;
    }
    cursor := cursor + 1;
    while cursor < |input| && IdentifierContinue(input[cursor])
      invariant start < cursor <= |input|
      invariant IdentifierEnd(input, cursor) == IdentifierEnd(input, start + 1)
    {
      cursor := cursor + 1;
    }
    return End(cursor);
  }

  /** The loop over the parts of a member expression. */
  method ScanCandidate(syntax: Syntax, input: Text, start: nat, endOfStream: bool) returns (scan: SegmentScan)
    requires start <= |input|
    ensures scan == ScanExpression(syntax, input, start, endOfStream)
  {
    hide ScanSegment;
    scan := ScanIdentifierSegment(input, start, endOfStream);
    if scan.End? && syntax.MemberExpression? {
      while scan.End? && scan.cursor < |input| && input[scan.cursor] == DOT
        invariant scan.End? ==> start < scan.cursor <= |input|
        invariant ScanExpression(syntax, input, start, endOfStream)
               == if scan.End? then ScanMembers(input, scan.cursor, endOfStream) else scan
        decreases if scan.End? then |input| - scan.cursor + 1 else 0
      {
        scan := ScanIdentifierSegment(input, scan.cursor + 1, endOfStream);
      }
    }
  }

  /** Everything before the next marker is copied, the marker becomes the expression. */
  lemma TemplateStep(template: Text, expression: Text, consumed: nat, m: nat)
    requires IsLeftmost(template, consumed, MARKER, Some(m))
    ensures var rule := Rule(MARKER, Exact(expression));
            Substitute(rule, template, consumed) ==
            template[consumed..m] + expression + Substitute(rule, template, m + |MARKER|)
  {
    var rule := Rule(MARKER, Exact(expression));
    assert m + |MARKER| <= |template|;
    hide Substitute, At;
    SubstituteSkips(rule, template, consumed, m);
    SubstituteUnfolds(rule, template, m);
    Reassociate(template[consumed..m], expression, Substitute(rule, template, m + |MARKER|));
  }

  lemma LastTemplateStep(template: Text, expression: Text, consumed: nat)
    requires consumed <= |template| && IsLeftmost(template, consumed, MARKER, None)
    ensures Substitute(Rule(MARKER, Exact(expression)), template, consumed) == template[consumed..]
  {
    SubstituteSkips(Rule(MARKER, Exact(expression)), template, consumed, |template|);
  }

  method RenderIdentifierTemplate(template: Text, expression: Text) returns (rendered: Text)
    ensures rendered == RenderTemplate(template, expression)
  {
    hide Substitute, IsLeftmost;
    ghost var rule := Rule(MARKER, Exact(expression));
    rendered := [];
    var consumed := 0;
    var position: Option<nat> := Find(template, consumed, MARKER);
    while position.Some?
      invariant consumed <= |template|
      invariant IsLeftmost(template, consumed, MARKER, position)
      invariant position.Some? ==> consumed <= position.value && position.value + |MARKER| <= |template|
      invariant rendered + Substitute(rule, template, consumed) == RenderTemplate(template, expression)
      decreases |template| - consumed
    {
      ghost var rest := Substitute(rule, template, position.value + |MARKER|);
      TemplateStep(template, expression, consumed, position.value);
      assert rendered + (template[consumed..position.value] + expression + rest)
          == rendered + template[consumed..position.value] + expression + rest;
      rendered := rendered + template[consumed..position.value] + expression;
      consumed := position.value + |MARKER|;
      position := Find(template, consumed, MARKER);
    }
    LastTemplateStep(template, expression, consumed);
    rendered := rendered + template[consumed..];
  }

  /** Does the last byte processed, if any, forbid a match right after it? */
  predicate AfterIdentifier(previousByte: Option<Byte>) {
    previousByte.Some? && IdentifierContinue(previousByte.value)
  }

  function LastByte(output: Text): Option<Byte> {
    if output == [] then None else Some(output[|output| - 1])
  }

  /** The byte looked back at is the last one written in this call, once there is one. */
  predicate LooksBackAt(output: Text, previousByte: Option<Byte>) {
    output != [] ==> previousByte == LastByte(output)
  }

  lemma LooksBackAtStretch(output: Text, stretch: Text)
    requires stretch != []
    ensures LooksBackAt(output + stretch, Some(stretch[|stretch| - 1]))
  {
  }

  /** The stage invariant, as for the literal rewriter, with what precedes the cursor. */
  ghost predicate Refines(p: Pattern, seen: Text, cursor: nat, after: bool, emitted: Text, endOfStream: bool)
    requires p.Valid() && cursor <= |seen|
  {
    forall rest: Text :: (endOfStream ==> rest == []) ==>
      emitted + Rewrite(p, seen + rest, cursor, after) == Rewrite(p, seen + rest, 0, false)
  }

  ghost predicate Progress(p: Pattern, seen: Text, cursor: nat, previousByte: Option<Byte>, emitted: Text,
                           endOfStream: bool) {
    p.Valid() && cursor <= |seen| && Refines(p, seen, cursor, AfterIdentifier(previousByte), emitted, endOfStream)
  }

  lemma NothingYet(p: Pattern)
    requires p.Valid()
    ensures Refines(p, [], 0, false, [], false)
  {
    forall rest: Text
      ensures [] + Rewrite(p, [] + rest, 0, false) == Rewrite(p, [] + rest, 0, false)
    {
    }
  }

  lemma MoreInput(p: Pattern, seen: Text, cursor: nat, previousByte: Option<Byte>, emitted: Text, input: Text,
                  endOfStream: bool)
    requires Progress(p, seen, cursor, previousByte, emitted, false)
    ensures Progress(p, seen + input, cursor, previousByte, emitted, endOfStream)
  {
    hide Rewrite;
    var after := AfterIdentifier(previousByte);
    forall rest: Text | endOfStream ==> rest == []
      ensures emitted + Rewrite(p, seen + input + rest, cursor, after) == Rewrite(p, seen + input + rest, 0, false)
    {
      assert seen + (input + rest) == seen + input + rest;
    }
  }

  lemma EmittedIsPrefix(p: Pattern, seen: Text, cursor: nat, after: bool, emitted: Text, rest: Text)
    requires p.Valid() && cursor <= |seen|
    requires Refines(p, seen, cursor, after, emitted, false)
    ensures emitted <= Rewrite(p, seen + rest, 0, false)
  {
    assert emitted + Rewrite(p, seen + rest, cursor, after) == Rewrite(p, seen + rest, 0, false);
  }

  lemma StretchIsCopied(p: Pattern, seen: Text, rest: Text, cursor: nat, m: nat, after: bool)
    requires p.Valid() && cursor < m <= |seen|
    requires forall j :: cursor <= j < m ==> !At(seen, j, p.prefix)
    requires rest == [] || m + |p.prefix| <= |seen| + 1
    ensures Rewrite(p, seen + rest, cursor, after) ==
            seen[cursor..m] + Rewrite(p, seen + rest, m, IdentifierContinue(seen[m - 1]))
  {
    hide At;
    forall j | cursor <= j < m
      ensures !At(seen + rest, j, p.prefix)
    {
      if rest == [] {
        assert seen + rest == seen;
      } else {
        AtIsStable(seen, rest, j, p.prefix);
      }
    }
    RewriteSkips(p, seen + rest, cursor, m, after);
    assert (seen + rest)[cursor..m] == seen[cursor..m];
  }

  /** Copying a stretch in which the prefix does not occur. */
  lemma CopyStretch(p: Pattern, seen: Text, pending: Text, base: nat, consumed: nat, position: nat,
                    previousByte: Option<Byte>, emitted: Text, endOfStream: bool, found: Option<nat>)
    requires base <= |seen| && pending == seen[base..]
    requires consumed < position <= |pending|
    requires Progress(p, seen, base + consumed, previousByte, emitted, endOfStream)
    requires IsLeftmost(pending, consumed, p.prefix, found) && (found.Some? ==> position <= found.value)
    requires endOfStream || position + |p.prefix| <= |pending| + 1
    ensures var stretch := pending[consumed..position];
            Progress(p, seen, base + position, Some(stretch[|stretch| - 1]), emitted + stretch, endOfStream)
  {
    hide At, Rewrite;
    var stretch := pending[consumed..position];
    assert stretch == seen[base + consumed..base + position];
    forall j | base + consumed <= j < base + position
      ensures !At(seen, j, p.prefix)
    {
      AtShifts(seen, base, j - base, p.prefix);
    }
    var m, after := base + position, AfterIdentifier(previousByte);
    forall rest: Text | endOfStream ==> rest == []
      ensures emitted + stretch + Rewrite(p, seen + rest, m, IdentifierContinue(seen[m - 1]))
              == Rewrite(p, seen + rest, 0, false)
    {
      StretchIsCopied(p, seen, rest, base + consumed, m, after);
      Reassociate(emitted, stretch, Rewrite(p, seen + rest, m, IdentifierContinue(seen[m - 1])));
    }
  }

  /** A candidate whose verdict is NoMatch, or that follows an identifier, gives up its first byte. */
  lemma CopyByte(p: Pattern, seen: Text, cursor: nat, previousByte: Option<Byte>, emitted: Text, endOfStream: bool)
    requires p.Valid() && At(seen, cursor, p.prefix)
    requires Progress(p, seen, cursor, previousByte, emitted, endOfStream)
    requires AfterIdentifier(previousByte) || Candidate(p, seen, cursor, endOfStream).NoMatch?
    ensures Progress(p, seen, cursor + 1, Some(seen[cursor]), emitted + [seen[cursor]], endOfStream)
  {
    hide Candidate, At;
    AtSplits(seen, cursor, p.prefix);
    var after, byte := AfterIdentifier(previousByte), seen[cursor];
    forall rest: Text | endOfStream ==> rest == []
      ensures emitted + [byte] + Rewrite(p, seen + rest, cursor + 1, IdentifierContinue(byte))
              == Rewrite(p, seen + rest, 0, false)
    {
      if !after {
        VerdictIsFinal(p, seen, rest, cursor, endOfStream);
      }
      assert MatchAt(p, seen + rest, cursor, after) == None;
      RewriteUnfolds(p, seen + rest, cursor, after);
      Reassociate(emitted, [byte], Rewrite(p, seen + rest, cursor + 1, IdentifierContinue(byte)));
    }
  }

  lemma VerdictIsFinal(p: Pattern, seen: Text, rest: Text, cursor: nat, endOfStream: bool)
    requires p.Valid() && At(seen, cursor, p.prefix) && (endOfStream ==> rest == [])
    requires !Candidate(p, seen, cursor, endOfStream).NeedMore?
    ensures At(seen + rest, cursor, p.prefix)
    ensures Candidate(p, seen + rest, cursor, true) == Candidate(p, seen, cursor, endOfStream)
  {
    if endOfStream {
      assert seen + rest == seen;
    } else {
      VerdictIsStable(p, seen, rest, cursor, true);
    }
  }

  lemma MatchIsReplaced(p: Pattern, seen: Text, rest: Text, cursor: nat, endOfStream: bool, n: nat)
    requires p.Valid() && At(seen, cursor, p.prefix) && (endOfStream ==> rest == [])
    requires Candidate(p, seen, cursor, endOfStream) == Match(n)
    ensures var r := Render(p, Expression(p, seen, cursor, n));
            Rewrite(p, seen + rest, cursor, false) == r + Rewrite(p, seen + rest, cursor + n, EndsInIdentifier(r))
  {
    hide Candidate, At, Render, EndsInIdentifier, Rewrite;
    VerdictIsFinal(p, seen, rest, cursor, endOfStream);
    assert MatchAt(p, seen + rest, cursor, false) == Some(n);
    assert Expression(p, seen + rest, cursor, n) == Expression(p, seen, cursor, n);
    AtSplits(seen, cursor, p.prefix);
    RewriteUnfolds(p, seen + rest, cursor, false);
  }

  /** A match that does not follow an identifier is replaced. */
  lemma ReplaceMatch(p: Pattern, seen: Text, cursor: nat, previousByte: Option<Byte>, emitted: Text, endOfStream: bool,
                     n: nat, next: Option<Byte>)
    requires p.Valid() && At(seen, cursor, p.prefix)
    requires Progress(p, seen, cursor, previousByte, emitted, endOfStream)
    requires !AfterIdentifier(previousByte) && Candidate(p, seen, cursor, endOfStream) == Match(n)
    requires var r := Render(p, Expression(p, seen, cursor, n)); AfterIdentifier(next) == EndsInIdentifier(r)
    ensures var r := Render(p, Expression(p, seen, cursor, n));
            Progress(p, seen, cursor + n, next, emitted + r, endOfStream)
  {
    hide Candidate, At, Render, EndsInIdentifier, Rewrite, Expression;
    var r := Render(p, Expression(p, seen, cursor, n));
    forall rest: Text | endOfStream ==> rest == []
      ensures emitted + r + Rewrite(p, seen + rest, cursor + n, EndsInIdentifier(r)) ==
              Rewrite(p, seen + rest, 0, false)
    {
      MatchIsReplaced(p, seen, rest, cursor, endOfStream, n);
      Reassociate(emitted, r, Rewrite(p, seen + rest, cursor + n, EndsInIdentifier(r)));
    }
  }

  /** A verdict looks only at the bytes from the candidate on. */
  lemma {:induction false} IdentifierEndShifts(text: Text, base: nat, c: nat)
    requires base <= |text| && base + c <= |text|
    ensures IdentifierEnd(text, base + c) == base + IdentifierEnd(text[base..], c)
    decreases |text| - c
  {
    if base + c < |text| {
      IdentifierEndShifts(text, base, c + 1);
    }
  }

  function Shifted(s: SegmentScan, base: nat): SegmentScan {
    match s case End(c) => End(base + c) case other => other
  }

  lemma {:induction false} MembersShift(text: Text, base: nat, c: nat, endOfStream: bool)
    requires base <= |text| && base + c <= |text|
    ensures ScanMembers(text, base + c, endOfStream) == Shifted(ScanMembers(text[base..], c, endOfStream), base)
    decreases |text| - c
  {
    hide ScanSegment;
    if base + c < |text| && text[base + c] == DOT {
      SegmentShifts(text, base, c + 1, endOfStream);
      var s := ScanSegment(text[base..], c + 1, endOfStream);
      if s.End? {
        MembersShift(text, base, s.cursor, endOfStream);
      }
    }
  }

  lemma SegmentShifts(text: Text, base: nat, c: nat, endOfStream: bool)
    requires base <= |text| && base + c <= |text|
    ensures ScanSegment(text, base + c, endOfStream) == Shifted(ScanSegment(text[base..], c, endOfStream), base)
  {
    if base + c < |text| {
      IdentifierEndShifts(text, base, c + 1);
    }
  }

  lemma ExpressionShifts(syntax: Syntax, text: Text, base: nat, c: nat, endOfStream: bool)
    requires base <= |text| && base + c <= |text|
    ensures ScanExpression(syntax, text, base + c, endOfStream)
         == Shifted(ScanExpression(syntax, text[base..], c, endOfStream), base)
  {
    hide ScanSegment, ScanMembers;
    SegmentShifts(text, base, c, endOfStream);
    var s := ScanSegment(text[base..], c, endOfStream);
    if s.End? {
      MembersShift(text, base, s.cursor, endOfStream);
    }
  }

  lemma SuffixVerdictShifts(p: Pattern, text: Text, base: nat, start: nat, c: nat, endOfStream: bool)
    requires p.Valid() && base <= |text| && start <= c && base + c <= |text|
    ensures SuffixVerdict(p, text, base + start, base + c, endOfStream) ==
            SuffixVerdict(p, text[base..], start, c, endOfStream)
  {
    var n := if |text| - base - c < |p.suffix| then |text| - base - c else |p.suffix|;
    SliceOfSuffix(text, base, c, c + n);
  }

  lemma VerdictShifts(p: Pattern, text: Text, base: nat, start: nat, endOfStream: bool)
    requires p.Valid() && base <= |text| && At(text[base..], start, p.prefix)
    ensures At(text, base + start, p.prefix)
    ensures Candidate(p, text, base + start, endOfStream) == Candidate(p, text[base..], start, endOfStream)
  {
    hide At, ScanExpression, SuffixVerdict;
    AtSplits(text[base..], start, p.prefix);
    AtShifts(text, base, start, p.prefix);
    var c := start + |p.prefix|;
    ExpressionShifts(p.syntax, text, base, c, endOfStream);
    var e := ScanExpression(p.syntax, text[base..], c, endOfStream);
    if e.End? {
      SuffixVerdictShifts(p, text, base, start, e.cursor, endOfStream);
    }
  }

  class ExpressionRewriter {
    const pattern: Pattern
    var pending: Text
    var previousByte: Option<Byte>
    var finished: bool

    ghost var seen: Text
    ghost var emitted: Text

    ghost predicate Valid()
      reads this
    {
      && |pending| <= |seen|
      && pending == seen[|seen| - |pending|..]
      && Progress(pattern, seen, |seen| - |pending|, previousByte, emitted, finished)
    }

    constructor (pattern: Pattern)
      requires pattern.Valid()
      ensures Valid() && !finished && this.pattern == pattern && seen == [] && emitted == []
    {
      this.pattern := pattern;
      pending, previousByte, finished := [], None, false;
      seen, emitted := [], [];
      new;
      hide Refines;
      NothingYet(pattern);
    }

    method Push(input: Text) returns (r: Result<Text>)
      requires Valid()
      modifies this
      ensures Valid() && finished == old(finished)
      ensures r.Ok? <==> !old(finished)
      ensures r.Ok? ==> seen == old(seen) + input && emitted == old(emitted) + r.value
      ensures r.Err? ==> r.error == AlreadyFinished && seen == old(seen) && emitted == old(emitted)
    {
      hide Progress;
      if finished {
        return Err(AlreadyFinished);
      }
      MoreInput(pattern, seen, |seen| - |pending|, previousByte, emitted, input, false);
      pending, seen := pending + input, seen + input;
      assert pending == seen[|seen| - |pending|..];
      var output := ProcessAvailable(false);
      return Ok(output);
    }

    method Finish() returns (r: Result<Text>)
      requires Valid()
      modifies this
      ensures Valid() && finished && seen == old(seen)
      ensures r.Ok? <==> !old(finished)
      ensures r.Ok? ==> emitted == old(emitted) + r.value && emitted == Rewrite(pattern, seen, 0, false)
      ensures r.Err? ==> r.error == AlreadyFinished && emitted == old(emitted)
    {
      if finished {
        return Err(AlreadyFinished);
      }
      MoreInput(pattern, seen, |seen| - |pending|, previousByte, emitted, [], true);
      assert seen + [] == seen;
      finished := true;
      var output := ProcessAvailable(true);
      assert emitted + Rewrite(pattern, seen + [], |seen|, AfterIdentifier(previousByte)) ==
             Rewrite(pattern, seen + [], 0, false);
      return Ok(output);
    }

    method MatchCandidate(input: Text, start: nat, endOfStream: bool) returns (verdict: Verdict)
      requires pattern.Valid() && At(input, start, pattern.prefix)
      ensures verdict == Candidate(pattern, input, start, endOfStream)
    {
      hide At, ScanExpression;
      AtSplits(input, start, pattern.prefix);
      var scan := ScanCandidate(pattern.syntax, input, start + |pattern.prefix|, endOfStream);
      if scan.MoreNeeded? {
        return NeedMore;
      }
      if scan.NoSegment? {
        return NoMatch;
      }
      var cursor := scan.cursor;
      if cursor == |input| {
        return if endOfStream then NoMatch else NeedMore;
      }
      var available := input[cursor..];
      var comparedLen := if |available| < |pattern.suffix| then |available| else |pattern.suffix|;
      assert available[..comparedLen] == input[cursor..cursor + comparedLen];
      if available[..comparedLen] != pattern.suffix[..comparedLen] {
        return NoMatch;
      }
      if |available| < |pattern.suffix| {
        return if endOfStream then NoMatch else NeedMore;
      }
      return Match(cursor + |pattern.suffix| - start);
    }

    method ProcessAvailable(endOfStream: bool) returns (output: Text)
      requires Valid() && finished == endOfStream
      modifies this`pending, this`previousByte, this`emitted
      ensures Valid() && emitted == old(emitted) + output
      ensures endOfStream ==> pending == []
    {
      hide *;
      var p, held := pattern, pending;
      var prefixLen := |p.prefix|;
      var consumed, previous := 0, previousByte;
      output := [];
      ghost var base := BeginProgress(endOfStream);
      ghost var input, written := seen, emitted;

      while true
        invariant consumed <= |held|
        invariant written == old(emitted) + output
        invariant LooksBackAt(output, previous)
        invariant Progress(p, input, base + consumed, previous, written, endOfStream)
        decreases |held| - consumed
      {
        var found: Option<nat> := Find(held, consumed, p.prefix);
        if found.None? {
          var available := |held| - consumed;
          var emitLen := if endOfStream then available
                         else if available > prefixLen - 1 then available - (prefixLen - 1) else 0;
          if emitLen > 0 {
            var stretch := held[consumed..consumed + emitLen];
            CopyStretch(p, input, held, base, consumed, consumed + emitLen, previous, written, endOfStream, found);
            LooksBackAtStretch(output, stretch);
            previous := Some(stretch[|stretch| - 1]);
            output, written := output + stretch, written + stretch;
            consumed := consumed + emitLen;
          }
          break;
        }
        var position := found.value;
        if position > consumed {
          var stretch := held[consumed..position];
          CopyStretch(p, input, held, base, consumed, position, previous, written, endOfStream, found);
          LooksBackAtStretch(output, stretch);
          previous := Some(stretch[|stretch| - 1]);
          output, written := output + stretch, written + stretch;
          consumed := position;
          continue;
        }
        var verdict := NoMatch;
        if !AfterIdentifier(previous) {
          verdict := MatchCandidate(held, consumed, endOfStream);
        }
        match verdict {
          case Match(matchedLen) =>
            MatchStep(p, input, held, base, consumed, previous, output, written, endOfStream, matchedLen);
            var rendered := RenderMatch(held, consumed, matchedLen);
            var next := LastByte(output + rendered);
            output, written := output + rendered, written + rendered;
            previous := next;
            consumed := consumed + matchedLen;
          case NeedMore => break;
          case NoMatch =>
            var byte := held[consumed];
            ByteStep(p, input, held, base, consumed, previous, output, written, endOfStream);
            output, written := output + [byte], written + [byte];
            previous := Some(byte);
            consumed := consumed + 1;
        }
      }
      previousByte, pending, emitted := previous, held[consumed..], written;
      EndProgress(base + consumed, endOfStream);
    }

    /** What the match of `n` bytes at `start` is replaced by. */
    method RenderMatch(input: Text, start: nat, n: nat) returns (rendered: Text)
      requires |pattern.prefix| + |pattern.suffix| <= n && start + n <= |input|
      requires At(input, start + n - |pattern.suffix|, pattern.suffix)
      ensures rendered == Render(pattern, Expression(pattern, input, start, n))
    {
      var expressionStart := start + |pattern.prefix|;
      var expressionEnd := start + n - |pattern.suffix|;
      match pattern.replacement {
        case Prefix(replacement) =>
          assert input[expressionStart..start + n] == input[expressionStart..expressionEnd] + pattern.suffix;
          rendered := replacement + input[expressionStart..start + n];
        case Template(template) =>
          rendered := RenderIdentifierTemplate(template, input[expressionStart..expressionEnd]);
      }
    }

    lemma BeginProgress(endOfStream: bool) returns (base: nat)
      requires Valid() && finished == endOfStream
      ensures base <= |seen| && pending == seen[base..] && pattern.prefix != [] && pattern.suffix != []
      ensures pattern.Valid()
      ensures Progress(pattern, seen, base + 0, previousByte, emitted, endOfStream)
      ensures emitted + [] == emitted && LooksBackAt([], previousByte)
    {
      base := |seen| - |pending|;
    }

    lemma EndProgress(base: nat, endOfStream: bool)
      requires base <= |seen| && pending == seen[base..] && finished == endOfStream
      requires Progress(pattern, seen, base, previousByte, emitted, endOfStream)
      ensures Valid()
    {
      hide Refines;
    }
  }

  lemma SliceOfSuffix(text: Text, base: nat, a: nat, b: nat)
    requires base <= |text| && a <= b && base + b <= |text|
    ensures text[base..][a..b] == text[base + a..base + b]
  {
  }

  lemma MatchBounds(p: Pattern, text: Text, start: nat, n: nat, endOfStream: bool)
    requires p.Valid() && At(text, start, p.prefix) && Candidate(p, text, start, endOfStream) == Match(n)
    ensures 0 < n && |p.prefix| + |p.suffix| <= n && start + n <= |text|
    ensures At(text, start + n - |p.suffix|, p.suffix)
  {
  }

  lemma ExpressionShifted(p: Pattern, text: Text, base: nat, i: nat, n: nat)
    requires base <= |text| && |p.prefix| + |p.suffix| <= n && base + i + n <= |text|
    ensures Expression(p, text, base + i, n) == Expression(p, text[base..], i, n)
  {
    SliceOfSuffix(text, base, i + |p.prefix|, i + n - |p.suffix|);
  }

  /**
   * The byte looked back at after a match is the last one of this call's output. When the rendering
   * is empty that is an earlier byte, or none at all; but no byte before a match is an identifier
   * byte, so the answer is the same however the input was split.
   */
  lemma LastByteAfter(output: Text, rendered: Text, previous: Option<Byte>)
    requires LooksBackAt(output, previous)
    requires !AfterIdentifier(previous)
    ensures AfterIdentifier(LastByte(output + rendered)) == EndsInIdentifier(rendered)
    ensures LooksBackAt(output + rendered, LastByte(output + rendered))
  {
    if rendered == [] {
      assert output + rendered == output;
    }
  }

  /** A match found in the bytes held, with everything its replacement updates. */
  lemma MatchStep(p: Pattern, seen: Text, held: Text, base: nat, consumed: nat, previous: Option<Byte>,
                  output: Text, written: Text, endOfStream: bool, n: nat)
    requires base <= |seen| && held == seen[base..] && At(held, consumed, p.prefix)
    requires Progress(p, seen, base + consumed, previous, written, endOfStream)
    requires LooksBackAt(output, previous) && !AfterIdentifier(previous)
    requires Candidate(p, held, consumed, endOfStream) == Match(n)
    ensures 0 < n && |p.prefix| + |p.suffix| <= n && consumed + n <= |held|
    ensures At(held, consumed + n - |p.suffix|, p.suffix)
    ensures var r := Render(p, Expression(p, held, consumed, n));
            var next := LastByte(output + r);
            LooksBackAt(output + r, next) && Progress(p, seen, base + consumed + n, next, written + r, endOfStream)
  {
    hide LooksBackAt, AfterIdentifier, Candidate, At, Render, Expression, EndsInIdentifier, Refines;
    MatchBounds(p, held, consumed, n, endOfStream);
    VerdictShifts(p, seen, base, consumed, endOfStream);
    ExpressionShifted(p, seen, base, consumed, n);
    var r := Render(p, Expression(p, held, consumed, n));
    LastByteAfter(output, r, previous);
    ReplaceMatch(p, seen, base + consumed, previous, written, endOfStream, n, LastByte(output + r));
  }

  lemma ByteStep(p: Pattern, seen: Text, held: Text, base: nat, consumed: nat, previous: Option<Byte>,
                 output: Text, written: Text, endOfStream: bool)
    requires base <= |seen| && held == seen[base..] && At(held, consumed, p.prefix) && consumed < |held|
    requires Progress(p, seen, base + consumed, previous, written, endOfStream)
    requires AfterIdentifier(previous) || Candidate(p, held, consumed, endOfStream).NoMatch?
    ensures var b := held[consumed];
            LooksBackAt(output + [b], Some(b))
              && Progress(p, seen, base + consumed + 1, Some(b), written + [b], endOfStream)
  {
    hide LooksBackAt, AfterIdentifier, Candidate, At, Refines;
    VerdictShifts(p, seen, base, consumed, endOfStream);
    CopyByte(p, seen, base + consumed, previous, written, endOfStream);
    LooksBackAtStretch(output, [held[consumed]]);
  }
}
