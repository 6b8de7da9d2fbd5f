/** Rewriting the base URI inside `window._mig_meta` assignments. */
module MigMeta {
  import opened Bytes
  import opened Utf8

  const ASSIGNMENT: Text := Ascii("window._mig_meta")
  const EQUALS: Byte := 0x3D

  predicate IsQuote(b: Byte) {
    b == SINGLE_QUOTE || b == DOUBLE_QUOTE
  }

  function SkipWhitespace(s: Text, position: nat): (p: nat)
    requires position <= |s|
    ensures position <= p <= |s|
    ensures forall i :: position <= i < p ==> IsWhitespace(s[i])
    ensures p < |s| ==> !IsWhitespace(s[p])
    decreases |s| - position
  {
    if position < |s| && IsWhitespace(s[position]) then SkipWhitespace(s, position + 1) else position
  }

  function IndexOf(s: Text, b: Byte, from: nat): (i: Option<nat>)
    requires from <= |s|
    ensures i.Some? ==> from <= i.value < |s| && s[i.value] == b && forall j :: from <= j < i.value ==> s[j] != b
    ensures i.None? ==> forall j :: from <= j < |s| ==> s[j] != b
    decreases |s| - from
  {
    if from == |s| then None else if s[from] == b then Some(from) else IndexOf(s, b, from + 1)
  }

  function FirstFrom(s: Text, pattern: Text, from: nat): (i: Option<nat>)
    ensures i.Some? ==> from <= i.value && At(s, i.value, pattern)
                        && forall j: nat :: from <= j < i.value ==> !At(s, j, pattern)
    ensures i.None? ==> forall j: nat :: from <= j ==> !At(s, j, pattern)
    decreases |s| - from
  {
    if from > |s| then None else if At(s, from, pattern) then Some(from) else FirstFrom(s, pattern, from + 1)
  }

  /** What follows an occurrence of the assigned name. */
  datatype Assignment = NotOne(stop: nat) | Unclosed | Closed(start: nat, end: nat)

  /** `stop` is the byte (or the end of the text) at which it turns out not to be an assignment of a string. */
  function ParseAssignment(s: Text, after: nat): (a: Assignment)
    requires after <= |s|
    ensures a.NotOne? ==> after <= a.stop <= |s|
                          && forall i :: after <= i < a.stop ==> IsWhitespace(s[i]) || s[i] == EQUALS
    ensures a.Closed? ==> after < a.start <= a.end < |s| && IsQuote(s[a.start - 1]) && s[a.end] == s[a.start - 1]
  {
    var p := SkipWhitespace(s, after);
    if p == |s| || s[p] != EQUALS then NotOne(p)
    else
      ParseString(s, SkipWhitespace(s, p + 1))
  }

  /** The quoted string that should begin at `q`. */
  function ParseString(s: Text, q: nat): (a: Assignment)
    requires q <= |s|
    ensures a.NotOne? ==> a.stop == q
    ensures a.Closed? ==> a.start == q + 1 <= a.end < |s| && IsQuote(s[q]) && s[a.end] == s[q]
  {
    if q == |s| || !IsQuote(s[q]) then NotOne(q)
    else match IndexOf(s, s[q], q + 1)
         case None => Unclosed
         case Some(end) => Closed(q + 1, end)
  }

  datatype Step = Done | SkipTo(next: nat) | Payload(start: nat, end: nat)

  /** The next thing in `s` that matters: nothing more, a name that is not assigned a string, or a payload. */
  function NextStep(s: Text): (step: Step)
    ensures step.SkipTo? ==> 0 < step.next <= |s|
    ensures step.Payload? ==> 0 < step.start <= step.end < |s|
  {
    match FirstFrom(s, ASSIGNMENT, 0)
    case None => Done
    case Some(a) =>
      match ParseAssignment(s, a + |ASSIGNMENT|)
      case NotOne(_) => SkipTo(a + |ASSIGNMENT|)
      case Unclosed => Done
      case Closed(start, end) => Payload(start, end)
  }

  /** The rewriting of a whole text by a payload function. */
  function Splice(payload: Text -> Option<Text>, s: Text): Text
    decreases |s|
  {
    match NextStep(s)
    case Done => s
    case SkipTo(next) => s[..next] + Splice(payload, s[next..])
    case Payload(start, end) =>
      match payload(s[start..end])
      case None => s[..end + 1] + Splice(payload, s[end + 1..])
      case Some(rewritten) => s[..start] + rewritten + [s[end]] + Splice(payload, s[end + 1..])
  }

  // The cursor loop computes this function.

  method SkipAsciiWhitespace(input: Text, start: nat) returns (position: nat)
    requires start <= |input|
    ensures position == SkipWhitespace(input, start)
  {
    position := start;
    while position < |input| && IsWhitespace(input[position])
      invariant start <= position <= |input|
      invariant SkipWhitespace(input, position) == SkipWhitespace(input, start)
    {
      position := position + 1;
    }
  }

  method FindByte(input: Text, b: Byte, from: nat) returns (found: Option<nat>)
    requires from <= |input|
    ensures found == IndexOf(input, b, from)
  {
    var i := from;
    while i < |input|
      invariant from <= i <= |input|
      invariant IndexOf(input, b, i) == IndexOf(input, b, from)
    {
      if input[i] == b {
        return Some(i);
      }
      i := i + 1;
    }
    return None;
  }

  lemma {:induction false} SkipShifts(s: Text, base: nat, position: nat)
    requires base + position <= |s|
    ensures SkipWhitespace(s, base + position) == base + SkipWhitespace(s[base..], position)
    decreases |s| - position
  {
    if base + position < |s| && IsWhitespace(s[base + position]) {
      SkipShifts(s, base, position + 1);
    }
  }

  function Shift(a: Assignment, base: nat): Assignment {
    match a
    case NotOne(stop) => NotOne(base + stop)
    case Unclosed => Unclosed
    case Closed(start, end) => Closed(base + start, base + end)
  }

  lemma ParseShifts(s: Text, base: nat, after: nat)
    requires base + after <= |s|
    ensures ParseAssignment(s, base + after) == Shift(ParseAssignment(s[base..], after), base)
  {
    hide SkipWhitespace, ParseString, IsWhitespace;
    var t := s[base..];
    SkipShifts(s, base, after);
    var p := SkipWhitespace(t, after);
    if p < |t| {
      assert t[p] == s[base + p];
      if t[p] == EQUALS {
        SkipShifts(s, base, p + 1);
        StringShifts(s, base, SkipWhitespace(t, p + 1));
      }
    }
  }

  lemma StringShifts(s: Text, base: nat, q: nat)
    requires base + q <= |s|
    ensures ParseString(s, base + q) == Shift(ParseString(s[base..], q), base)
  {
    hide IndexOf, IsQuote;
    var t := s[base..];
    if q < |t| {
      assert t[q] == s[base + q];
      if IsQuote(t[q]) {
        IndexShifts(s, base, t[q], q + 1);
      }
    }
  }

  lemma {:induction false} IndexShifts(s: Text, base: nat, b: Byte, from: nat)
    requires base + from <= |s|
    ensures var i := IndexOf(s[base..], b, from);
            IndexOf(s, b, base + from) == if i.Some? then Some(base + i.value) else None
    decreases |s| - from
  {
    if base + from < |s| && s[base + from] != b {
      IndexShifts(s, base, b, from + 1);
    }
  }

  lemma LeftmostIsFirst(s: Text, base: nat, found: Option<nat>)
    requires base <= |s| && IsLeftmost(s, base, ASSIGNMENT, found)
    ensures FirstFrom(s[base..], ASSIGNMENT, 0) == if found.Some? then Some(found.value - base) else None
  {
    hide At;
    var t := s[base..];
    var first := FirstFrom(t, ASSIGNMENT, 0);
    if found.Some? {
      AtShifts(s, base, found.value - base, ASSIGNMENT);
    }
    if first.Some? {
      AtShifts(s, base, first.value, ASSIGNMENT);
    }
  }

  /** How the loop's search position moves, in terms of the rest of the text. */
  lemma StepAtCursor(s: Text, from: nat, found: Option<nat>)
    requires from <= |s| && IsLeftmost(s, from, ASSIGNMENT, found)
    ensures found.Some? ==> found.value + |ASSIGNMENT| <= |s|
    ensures NextStep(s[from..]) ==
            if found.None? then Done
            else match ParseAssignment(s, found.value + |ASSIGNMENT|)
                 case NotOne(_) => SkipTo(found.value + |ASSIGNMENT| - from)
                 case Unclosed => Done
                 case Closed(start, end) => Payload(start - from, end - from)
  {
    hide At, ParseAssignment, FirstFrom;
    LeftmostIsFirst(s, from, found);
    if found.Some? {
      AtSplits(s, found.value, ASSIGNMENT);
      ParseShifts(s, from, found.value + |ASSIGNMENT| - from);
    }
  }

  /** The loop invariant: what is written, what is copied at the next write, and what is left to do. */
  ghost predicate Spliced(payload: Text -> Option<Text>, input: Text, output: Text, copiedUntil: nat, searchFrom: nat) {
    && copiedUntil <= searchFrom <= |input|
    && (copiedUntil == 0 ==> output == [])
    && output + input[copiedUntil..searchFrom] + Splice(payload, input[searchFrom..]) == Splice(payload, input)
  }

  lemma SplicedSkip(payload: Text -> Option<Text>, input: Text, output: Text, copiedUntil: nat, from: nat, next: nat)
    requires Spliced(payload, input, output, copiedUntil, from) && from <= next <= |input|
    requires Splice(payload, input[from..]) == input[from..next] + Splice(payload, input[next..])
    ensures Spliced(payload, input, output, copiedUntil, next)
  {
    hide Splice;
    var rest := Splice(payload, input[next..]);
    assert input[copiedUntil..next] == input[copiedUntil..from] + input[from..next];
    assert output + input[copiedUntil..from] + (input[from..next] + rest) == output + input[copiedUntil..next] + rest;
  }

  lemma SplicedReplace(payload: Text -> Option<Text>, input: Text, output: Text, copiedUntil: nat, from: nat,
                       start: nat, end: nat, rewritten: Text)
    requires Spliced(payload, input, output, copiedUntil, from) && from < start <= end < |input|
    requires Splice(payload, input[from..]) ==
             input[from..start] + rewritten + [input[end]] + Splice(payload, input[end + 1..])
    ensures Spliced(payload, input, output + input[copiedUntil..start] + rewritten, end, end + 1)
  {
    hide Splice;
    var rest := Splice(payload, input[end + 1..]);
    assert input[copiedUntil..start] == input[copiedUntil..from] + input[from..start];
    assert input[end..end + 1] == [input[end]];
    assert output + input[copiedUntil..from] + (input[from..start] + rewritten + [input[end]] + rest)
        == output + input[copiedUntil..start] + rewritten + input[end..end + 1] + rest;
  }

  // One turn of the loop, on the rest of the text.

  lemma SkipUnfolds(payload: Text -> Option<Text>, t: Text, next: nat)
    requires next <= |t| && NextStep(t) == SkipTo(next)
    ensures Splice(payload, t) == t[..next] + Splice(payload, t[next..])
  {
    hide NextStep;
  }

  lemma SkipStep(payload: Text -> Option<Text>, s: Text, from: nat, next: nat)
    requires from <= next <= |s| && NextStep(s[from..]) == SkipTo(next - from)
    ensures Splice(payload, s[from..]) == s[from..next] + Splice(payload, s[next..])
  {
    hide NextStep, Splice;
    var t := s[from..];
    SkipUnfolds(payload, t, next - from);
    assert t[..next - from] == s[from..next] && t[next - from..] == s[next..];
  }

  lemma PayloadUnfolds(payload: Text -> Option<Text>, t: Text, start: nat, end: nat)
    requires start <= end < |t| && NextStep(t) == Payload(start, end)
    ensures Splice(payload, t) ==
            (if payload(t[start..end]).None? then t[..end + 1]
             else t[..start] + payload(t[start..end]).value + [t[end]]) + Splice(payload, t[end + 1..])
  {
    hide NextStep;
  }

  lemma PayloadStep(payload: Text -> Option<Text>, s: Text, from: nat, start: nat, end: nat)
    requires from <= start <= end < |s| && NextStep(s[from..]) == Payload(start - from, end - from)
    ensures Splice(payload, s[from..]) ==
            (if payload(s[start..end]).None? then s[from..end + 1]
             else s[from..start] + payload(s[start..end]).value + [s[end]]) + Splice(payload, s[end + 1..])
  {
    hide NextStep, Splice;
    var t := s[from..];
    PayloadUnfolds(payload, t, start - from, end - from);
    assert t[start - from..end - from] == s[start..end] && t[..start - from] == s[from..start];
    assert t[..end - from + 1] == s[from..end + 1] && t[end - from + 1..] == s[end + 1..];
  }

  lemma DoneUnfolds(payload: Text -> Option<Text>, t: Text)
    requires NextStep(t).Done?
    ensures Splice(payload, t) == t
  {
  }

  lemma SkipBounds(t: Text, next: nat)
    requires NextStep(t) == SkipTo(next)
    ensures 0 < next <= |t|
  {
  }

  lemma PayloadBounds(t: Text, start: nat, end: nat)
    requires NextStep(t) == Payload(start, end)
    ensures 0 < start <= end < |t|
  {
  }

  method RewriteMigMetaBaseUri(payload: Text -> Option<Text>, input: Text) returns (result: Text)
    ensures result == Splice(payload, input)
  {
    hide *;
    var output: Text := [];
    var searchFrom, copiedUntil := 0, 0;
    SplicedStart(payload, input);
    var found: Option<nat> := Find(input, searchFrom, ASSIGNMENT);
    while found.Some?
      invariant copiedUntil <= searchFrom <= |input|
      invariant found.Some? ==> searchFrom <= found.value && found.value + |ASSIGNMENT| <= |input|
      invariant IsLeftmost(input, searchFrom, ASSIGNMENT, found)
      invariant Spliced(payload, input, output, copiedUntil, searchFrom)
      decreases |input| - searchFrom
    {
      StepAtCursor(input, searchFrom, found);
      var assignmentStart := found.value;
      var next := assignmentStart + |ASSIGNMENT|;
      var assignment := ReadAssignment(input, next);
      match assignment {
        case NotOne(_) =>
          SkipStep(payload, input, searchFrom, next);
          SplicedSkip(payload, input, output, copiedUntil, searchFrom, next);
          searchFrom := next;
        case Unclosed => break;
        case Closed(encodedStart, encodedEnd) =>
          PayloadStep(payload, input, searchFrom, encodedStart, encodedEnd);
          var rewritten := payload(input[encodedStart..encodedEnd]);
          if rewritten.None? {
            SplicedSkip(payload, input, output, copiedUntil, searchFrom, encodedEnd + 1);
            searchFrom := encodedEnd + 1;
          } else {
            SplicedReplace(payload, input, output, copiedUntil, searchFrom, encodedStart, encodedEnd, rewritten.value);
            output := output + input[copiedUntil..encodedStart] + rewritten.value;
            copiedUntil := encodedEnd;
            searchFrom := encodedEnd + 1;
          }
      }
      found := Find(input, searchFrom, ASSIGNMENT);
    }
    StepAtCursor(input, searchFrom, found);
    DoneUnfolds(payload, input[searchFrom..]);
    SplicedEnd(payload, input, output, copiedUntil, searchFrom);
    if copiedUntil == 0 {
      return input;
    }
    return output + input[copiedUntil..];
  }

  lemma SplicedStart(payload: Text -> Option<Text>, input: Text)
    ensures Spliced(payload, input, [], 0, 0)
  {
    assert input[0..] == input;
    assert [] + input[0..0] + Splice(payload, input) == Splice(payload, input);
  }

  lemma SplicedEnd(payload: Text -> Option<Text>, input: Text, output: Text, copiedUntil: nat, from: nat)
    requires Spliced(payload, input, output, copiedUntil, from)
    requires Splice(payload, input[from..]) == input[from..]
    ensures output + input[copiedUntil..] == Splice(payload, input)
    ensures copiedUntil == 0 ==> input == Splice(payload, input)
  {
    hide Splice;
    assert input[copiedUntil..] == input[copiedUntil..from] + input[from..];
    assert output + (input[copiedUntil..from] + input[from..]) == output + input[copiedUntil..from] + input[from..];
    if copiedUntil == 0 {
      assert [] + input[0..] == input;
    }
  }

  method ReadAssignment(input: Text, after: nat) returns (a: Assignment)
    requires after <= |input|
    ensures a == ParseAssignment(input, after)
  {
    hide SkipWhitespace, IndexOf;
    var position := SkipAsciiWhitespace(input, after);
    if position == |input| || input[position] != EQUALS {
      return NotOne(position);
    }
    position := position + 1;
    position := SkipAsciiWhitespace(input, position);
    if position == |input| || !IsQuote(input[position]) {
      return NotOne(position);
    }
    var encodedStart := position + 1;
    var end := FindByte(input, input[position], encodedStart);
    if end.None? {
      return Unclosed;
    }
    return Closed(encodedStart, end.value);
  }

  // Only payloads change.

  /** A stretch that is copied, or a payload with the text up to its opening quote and its closing quote. */
  datatype Piece =
    | Kept(bytes: Text)
    | Changed(opening: Text, before: Text, after: Text, quote: Byte)
  {
    function Before(): Text {
      if Kept? then bytes else opening + before + [quote]
    }

    function After(): Text {
      if Kept? then bytes else opening + after + [quote]
    }

    /** The payload stands between two equal quotes, and is what the payload function rewrites. */
    ghost predicate IsPayload(payload: Text -> Option<Text>)
      requires Changed?
    {
      && IsQuote(quote) && EndsWith(opening, [quote]) && quote !in before
      && payload(before) == Some(after)
    }
  }

  function AllBefore(pieces: seq<Piece>): Text {
    if pieces == [] then [] else pieces[0].Before() + AllBefore(pieces[1..])
  }

  function AllAfter(pieces: seq<Piece>): Text {
    if pieces == [] then [] else pieces[0].After() + AllAfter(pieces[1..])
  }

  /** The output differs from the text in rewritten payloads only; every other byte is kept, in order. */
  lemma {:induction false} SpliceChangesOnlyPayloads(payload: Text -> Option<Text>, s: Text)
    returns (pieces: seq<Piece>)
    ensures AllBefore(pieces) == s && AllAfter(pieces) == Splice(payload, s)
    ensures forall p <- pieces :: p.Changed? ==> p.IsPayload(payload)
    decreases |s|
  {
    hide *;
    var step := NextStep(s);
    if step.SkipTo? {
      SkipBounds(s, step.next);
      SkipUnfolds(payload, s, step.next);
      var rest := SpliceChangesOnlyPayloads(payload, s[step.next..]);
      pieces := AddPiece(payload, Kept(s[..step.next]), rest);
      assert s == s[..step.next] + s[step.next..];
    } else if step.Payload? {
      var start, end := step.start, step.end;
      PayloadBounds(s, start, end);
      PayloadUnfolds(payload, s, start, end);
      var rest := SpliceChangesOnlyPayloads(payload, s[end + 1..]);
      assert s == s[..end + 1] + s[end + 1..];
      if payload(s[start..end]).Some? {
        PieceIsPayload(payload, s, start, end);
        pieces := AddPiece(payload, Changed(s[..start], s[start..end], payload(s[start..end]).value, s[end]), rest);
        assert s[..start] + s[start..end] + [s[end]] == s[..end + 1];
      } else {
        pieces := AddPiece(payload, Kept(s[..end + 1]), rest);
      }
    } else {
      DoneUnfolds(payload, s);
      NoPieces();
      pieces := AddPiece(payload, Kept(s), []);
      assert s + [] == s;
    }
  }

  lemma NoPieces()
    ensures AllBefore([]) == [] && AllAfter([]) == []
  {
  }

  lemma AddPiece(payload: Text -> Option<Text>, first: Piece, rest: seq<Piece>) returns (pieces: seq<Piece>)
    requires first.Changed? ==> first.IsPayload(payload)
    requires forall p <- rest :: p.Changed? ==> p.IsPayload(payload)
    ensures first.Kept? ==>
            AllBefore(pieces) == first.bytes + AllBefore(rest) && AllAfter(pieces) == first.bytes + AllAfter(rest)
    ensures first.Changed? ==>
              && AllBefore(pieces) == first.opening + first.before + [first.quote] + AllBefore(rest)
              && AllAfter(pieces) == first.opening + first.after + [first.quote] + AllAfter(rest)
    ensures forall p <- pieces :: p.Changed? ==> p.IsPayload(payload)
  {
    pieces := [first] + rest;
    assert pieces[1..] == rest;
  }

  lemma PieceIsPayload(payload: Text -> Option<Text>, s: Text, start: nat, end: nat)
    requires NextStep(s) == Payload(start, end) && payload(s[start..end]).Some?
    ensures Changed(s[..start], s[start..end], payload(s[start..end]).value, s[end]).IsPayload(payload)
  {
    PayloadHasNoClosingQuote(s, start, end);
    assert s[..start][start - 1..] == [s[start - 1]];
  }

  // A second pass changes nothing.

  /** Rewritten payloads hold no quote and are not rewritten again. */
  ghost predicate Settles(payload: Text -> Option<Text>) {
    forall encoded :: payload(encoded).Some? ==>
      && payload(payload(encoded).value) == None
      && SINGLE_QUOTE !in payload(encoded).value && DOUBLE_QUOTE !in payload(encoded).value
  }

  lemma FirstIsStable(s: Text, t: Text, a: nat)
    requires FirstFrom(s, ASSIGNMENT, 0) == Some(a)
    requires a + |ASSIGNMENT| <= |t| && s[..a + |ASSIGNMENT|] == t[..a + |ASSIGNMENT|]
    ensures FirstFrom(t, ASSIGNMENT, 0) == Some(a)
  {
    hide FirstFrom, At;
    var n := a + |ASSIGNMENT|;
    AtSplits(s, a, ASSIGNMENT);
    assert s == s[..n] + s[n..] && t == t[..n] + t[n..];
    forall j: nat | j <= a ensures At(t, j, ASSIGNMENT) == At(s, j, ASSIGNMENT) {
      AtIsStable(s[..n], s[n..], j, ASSIGNMENT);
      AtIsStable(t[..n], t[n..], j, ASSIGNMENT);
    }
  }

  lemma {:induction false} SkipIsStable(s: Text, t: Text, position: nat)
    requires position <= |s| && SkipWhitespace(s, position) < |s|
    requires SkipWhitespace(s, position) < |t|
             && s[..SkipWhitespace(s, position) + 1] == t[..SkipWhitespace(s, position) + 1]
    ensures SkipWhitespace(t, position) == SkipWhitespace(s, position)
    decreases |s| - position
  {
    var p := SkipWhitespace(s, position);
    assert s[position] == s[..p + 1][position] == t[position];
    if position < p {
      SkipIsStable(s, t, position + 1);
    }
  }

  lemma NotOneIsStable(s: Text, t: Text, after: nat)
    requires after <= |s| && ParseAssignment(s, after).NotOne?
    requires var stop := ParseAssignment(s, after).stop; stop < |s| && stop < |t| && s[..stop + 1] == t[..stop + 1]
    ensures ParseAssignment(t, after) == ParseAssignment(s, after)
  {
    hide SkipWhitespace;
    var stop := ParseAssignment(s, after).stop;
    var p := SkipWhitespace(s, after);
    assert s[..p + 1] == s[..stop + 1][..p + 1] == t[..p + 1];
    assert s[stop] == s[..stop + 1][stop] == t[stop] && s[p] == s[..p + 1][p] == t[p];
    SkipIsStable(s, t, after);
    if s[p] == EQUALS {
      SkipIsStable(s, t, p + 1);
    }
  }

  /** With the same text up to the opening quote, the assignment is closed by the next such quote. */
  lemma ClosedIsStable(s: Text, t: Text, after: nat, end: nat)
    requires after <= |s| && ParseAssignment(s, after).Closed?
    requires var start := ParseAssignment(s, after).start;
             && start <= end < |t| && s[..start] == t[..start]
             && t[end] == s[start - 1] && forall j :: start <= j < end ==> t[j] != s[start - 1]
    ensures ParseAssignment(t, after) == Closed(ParseAssignment(s, after).start, end)
  {
    hide SkipWhitespace, IndexOf;
    var start := ParseAssignment(s, after).start;
    var p := SkipWhitespace(s, after);
    var q := SkipWhitespace(s, p + 1);
    assert start == q + 1;
    assert s[..p + 1] == s[..start][..p + 1] == t[..p + 1] && s[p] == s[..p + 1][p] == t[p];
    assert s[q] == s[..start][q] == t[q];
    SkipIsStable(s, t, after);
    SkipIsStable(s, t, p + 1);
    assert IndexOf(t, t[q], start) == Some(end);
  }

  lemma NameBeginsPlainly()
    ensures |ASSIGNMENT| == 16 && !IsWhitespace(ASSIGNMENT[0]) && ASSIGNMENT[0] != EQUALS
  {
    assert |"window._mig_meta"| == 16 && "window._mig_meta"[0] == 'w';
    assert AsciiByte('w') == 0x77;
  }

  /** Up to the first byte that could begin the name, and that byte too, a text is kept. */
  lemma BeginningIsKept(payload: Text -> Option<Text>, s: Text, k: nat)
    requires k < |s| && forall i :: 0 <= i < k ==> IsWhitespace(s[i]) || s[i] == EQUALS
    ensures k < |Splice(payload, s)| && Splice(payload, s)[..k + 1] == s[..k + 1]
  {
    NextIsLater(s, k);
    hide NextStep, Splice, IsWhitespace;
    var r, step := Splice(payload, s), NextStep(s);
    if step.SkipTo? {
      SkipUnfolds(payload, s, step.next);
      PrefixOfPrefix(r, s, step.next, k + 1);
    } else if step.Payload? {
      BeforePayloadIsKept(payload, s, step.start, step.end);
      PrefixOfPrefix(r, s, step.start, k + 1);
    } else {
      DoneUnfolds(payload, s);
    }
  }

  lemma BeforePayloadIsKept(payload: Text -> Option<Text>, s: Text, start: nat, end: nat)
    requires NextStep(s) == Payload(start, end)
    ensures start <= |s| && start <= |Splice(payload, s)| && Splice(payload, s)[..start] == s[..start]
  {
    hide NextStep, Splice;
    PayloadBounds(s, start, end);
    PayloadUnfolds(payload, s, start, end);
    assert s[..end + 1] == s[..start] + s[start..end + 1];
  }

  lemma NextIsLater(s: Text, k: nat)
    requires k <= |s| && forall i :: 0 <= i < k ==> IsWhitespace(s[i]) || s[i] == EQUALS
    ensures NextStep(s).SkipTo? ==> k < NextStep(s).next <= |s|
    ensures NextStep(s).Payload? ==> k < NextStep(s).start
  {
    hide FirstFrom, IsWhitespace;
    NameBeginsPlainly();
    if FirstFrom(s, ASSIGNMENT, 0).Some? {
      var a := FirstFrom(s, ASSIGNMENT, 0).value;
      assert s[a] == s[a..a + |ASSIGNMENT|][0] == ASSIGNMENT[0];
    }
  }

  /** Text with nothing but whitespace and equals signs is kept. */
  lemma NothingToSplice(payload: Text -> Option<Text>, s: Text)
    requires forall i :: 0 <= i < |s| ==> IsWhitespace(s[i]) || s[i] == EQUALS
    ensures Splice(payload, s) == s
  {
    NextIsLater(s, |s|);
  }

  /** A name that was not assigned a string still is not once what follows is rewritten. */
  lemma SkipAgain(payload: Text -> Option<Text>, s: Text, next: nat)
    requires NextStep(s) == SkipTo(next)
    ensures NextStep(s[..next] + Splice(payload, s[next..])) == SkipTo(next)
  {
    hide FirstFrom, At, Splice, ParseAssignment;
    var a := FirstFrom(s, ASSIGNMENT, 0).value;
    var rest := Splice(payload, s[next..]);
    var t := s[..next] + rest;
    var stop := ParseAssignment(s, next).stop;
    if stop == |s| {
      NothingToSplice(payload, s[next..]);
      assert t == s;
    } else {
      BeginningIsKept(payload, s[next..], stop - next);
      assert t[..stop + 1] == s[..next] + rest[..stop - next + 1];
      assert s[..stop + 1] == s[..next] + s[next..][..stop - next + 1];
      assert t[..next] == s[..next];
      FirstIsStable(s, t, a);
      NotOneIsStable(s, t, next);
    }
  }

  /** A payload is found again, with whatever quote-free text stands in its place. */
  lemma PayloadAgain(s: Text, start: nat, end: nat, r: Text, rest: Text)
    requires NextStep(s) == Payload(start, end) && s[end] !in r
    ensures NextStep(s[..start] + r + [s[end]] + rest) == Payload(start, start + |r|)
  {
    hide FirstFrom, At, ParseAssignment;
    var a := FirstFrom(s, ASSIGNMENT, 0).value;
    var t := s[..start] + (r + ([s[end]] + rest));
    assert t == s[..start] + r + [s[end]] + rest;
    var n := a + |ASSIGNMENT|;
    assert ParseAssignment(s, n) == Closed(start, end);
    assert t[..start] == s[..start];
    assert s[..n] == s[..start][..n] == t[..n];
    FirstIsStable(s, t, a);
    forall j | start <= j < start + |r| ensures t[j] != s[end] {
      assert t[j] == r[j - start];
    }
    assert t[start + |r|] == s[end];
    ClosedIsStable(s, t, n, start + |r|);
  }

  lemma PayloadHasNoClosingQuote(s: Text, start: nat, end: nat)
    requires NextStep(s) == Payload(start, end)
    ensures s[end] !in s[start..end] && IsQuote(s[end]) && s[start - 1] == s[end]
  {
    hide FirstFrom, SkipWhitespace, IsQuote;
    var a := FirstFrom(s, ASSIGNMENT, 0).value;
    assert ParseAssignment(s, a + |ASSIGNMENT|) == Closed(start, end);
  }

  lemma {:induction false} SpliceIsIdempotent(payload: Text -> Option<Text>, s: Text)
    requires Settles(payload)
    ensures Splice(payload, Splice(payload, s)) == Splice(payload, s)
    decreases |s|
  {
    hide NextStep, Settles, Splice;
    match NextStep(s)
    case Done => DoneUnfolds(payload, s);
    case SkipTo(next) =>
      var rest := Splice(payload, s[next..]);
      var t := s[..next] + rest;
      SkipAgain(payload, s, next);
      SpliceIsIdempotent(payload, s[next..]);
      SkipUnfolds(payload, s, next);
      SkipUnfolds(payload, t, next);
      assert t[..next] == s[..next] && t[next..] == rest;
    case Payload(start, end) =>
      var rest := Splice(payload, s[end + 1..]);
      SpliceIsIdempotent(payload, s[end + 1..]);
      PayloadUnfolds(payload, s, start, end);
      PayloadHasNoClosingQuote(s, start, end);
      var r := NewPayload(payload, s[start..end]);
      PayloadAgain(s, start, end, r, rest);
      var t := s[..start] + r + [s[end]] + rest;
      assert s[..end + 1] == s[..start] + s[start..end] + [s[end]];
      assert Splice(payload, s) == t;
      var e := start + |r|;
      PayloadUnfolds(payload, t, start, e);
      assert t[start..e] == r;
      assert t[..e + 1] == s[..start] + r + [s[end]] && t[e + 1..] == rest;
  }

  /** The payload that stands in the output, which is not rewritten again. */
  lemma NewPayload(payload: Text -> Option<Text>, encoded: Text) returns (r: Text)
    requires Settles(payload)
    ensures payload(r) == None
    ensures payload(encoded) == if payload(encoded).None? then None else Some(r)
    ensures payload(encoded).None? ==> r == encoded
    ensures payload(encoded).Some? ==> SINGLE_QUOTE !in r && DOUBLE_QUOTE !in r
  {
    r := if payload(encoded).Some? then payload(encoded).value else encoded;
  }

  // The payload function itself.

  /** A parsed value; the members of an object are kept in order. */
  datatype Json = JsonString(value: Text) | JsonObject(members: seq<(Text, Json)>) | JsonOther(raw: Text)

  /** Base64 (section 4 of RFC 4648) and JSON, known only by their laws. */
  datatype Codec = Codec(decode64: Text -> Option<Text>, encode64: Text -> Text,
                         parse: Text -> Option<Json>, print_: Json -> Text)

  const BASE_URI: Text := Ascii("baseURI")
  const LEGACY_BASE_URI: Text := Ascii("/proxy/ys1000")

  function IndexOfMember(members: seq<(Text, Json)>, name: Text): (i: Option<nat>)
    ensures i.Some? ==> i.value < |members| && members[i.value].0 == name
                        && forall j :: 0 <= j < i.value ==> members[j].0 != name
    ensures i.None? ==> forall j :: 0 <= j < |members| ==> members[j].0 != name
  {
    if members == [] then None
    else if members[0].0 == name then Some(0)
    else match IndexOfMember(members[1..], name)
         case None => None
         case Some(i) => Some(i + 1)
  }

  /** The base URI of an object that has one, as a string. */
  function BaseUriOf(v: Json): (uri: Option<Text>)
    ensures uri.Some? ==> v.JsonObject? && IndexOfMember(v.members, BASE_URI).Some?
  {
    if !v.JsonObject? || IndexOfMember(v.members, BASE_URI).None? then None
    else match v.members[IndexOfMember(v.members, BASE_URI).value].1
         case JsonString(uri) => Some(uri)
         case _ => None
  }

  lemma {:induction false} IndexIsKept(members: seq<(Text, Json)>, i: nat, value: Json)
    requires i < |members|
    ensures IndexOfMember(members[i := (members[i].0, value)], members[i].0) == IndexOfMember(members, members[i].0)
    decreases |members|
  {
    if i > 0 && members[0].0 != members[i].0 {
      var changed := members[i := (members[i].0, value)];
      assert changed[1..] == members[1..][i - 1 := (members[i].0, value)];
      IndexIsKept(members[1..], i - 1, value);
    }
  }

  /** The object with its base URI replaced in place. */
  function WithBaseUri(v: Json, uri: Text): (w: Json)
    requires BaseUriOf(v).Some?
    ensures BaseUriOf(w) == Some(uri) && |w.members| == |v.members|
    ensures forall j :: 0 <= j < |v.members| && v.members[j].0 != BASE_URI ==> w.members[j] == v.members[j]
  {
    IndexIsKept(v.members, IndexOfMember(v.members, BASE_URI).value, JsonString(uri));
    JsonObject(v.members[IndexOfMember(v.members, BASE_URI).value := (BASE_URI, JsonString(uri))])
  }

  /** The metadata in a payload, when it is an object whose base URI is a string. */
  function Metadata(codec: Codec, encoded: Text): (m: Option<Json>)
    ensures m.Some? ==> BaseUriOf(m.value).Some?
  {
    match codec.decode64(encoded)
    case None => None
    case Some(decoded) =>
      match codec.parse(decoded)
      case None => None
      case Some(v) => if BaseUriOf(v).Some? then Some(v) else None
  }

  function RewritePayload(codec: Codec, desired: Text, encoded: Text): Option<Text> {
    match Metadata(codec, encoded)
    case None => None
    case Some(metadata) =>
      if BaseUriOf(metadata) == Some(LEGACY_BASE_URI) then
        Some(codec.encode64(codec.print_(WithBaseUri(metadata, desired))))
      else None
  }

  function PayloadRewriter(codec: Codec, desired: Text): Text -> Option<Text> {
    (encoded: Text) => RewritePayload(codec, desired, encoded)
  }

  /** The characters of the base64 alphabet (table 1 of RFC 4648) and its padding. */
  predicate IsBase64(b: Byte) {
    || 0x41 <= b <= 0x5A || 0x61 <= b <= 0x7A || 0x30 <= b <= 0x39
    || b == 0x2B || b == 0x2F || b == 0x3D
  }

  /** Metadata printed with another base URI reads as metadata with that base URI. */
  ghost predicate KeepsBaseUri(codec: Codec, metadata: Json, uri: Text)
    requires BaseUriOf(metadata).Some?
  {
    var again := codec.parse(codec.print_(WithBaseUri(metadata, uri)));
    again.Some? && BaseUriOf(again.value) == Some(uri)
  }

  /**
   * What the payload function relies on: base64 round trips and stays in its alphabet, and of what was
   * parsed the base URI survives printing. Nothing is asked of other values, or of what no parser returns.
   */
  ghost predicate Lawful(codec: Codec) {
    && (forall b: Text :: codec.decode64(codec.encode64(b)) == Some(b))
    && (forall b: Text, i: nat :: i < |codec.encode64(b)| ==> IsBase64(codec.encode64(b)[i]))
    && (forall encoded: Text, uri: Text :: Metadata(codec, encoded).Some? && Tail([], uri) == Some([]) ==>
          KeepsBaseUri(codec, Metadata(codec, encoded).value, uri))
  }

  predicate CarriesLegacyUri(codec: Codec, encoded: Text) {
    Metadata(codec, encoded).Some? && BaseUriOf(Metadata(codec, encoded).value) == Some(LEGACY_BASE_URI)
  }

  /** A rewritten payload is the metadata with its base URI replaced, and reads as having the desired one. */
  lemma PayloadCarriesBaseUri(codec: Codec, desired: Text, encoded: Text)
    requires Lawful(codec) && Tail([], desired) == Some([]) && RewritePayload(codec, desired, encoded).Some?
    ensures CarriesLegacyUri(codec, encoded)
    ensures var r := RewritePayload(codec, desired, encoded).value;
            && codec.decode64(r) == Some(codec.print_(WithBaseUri(Metadata(codec, encoded).value, desired)))
            && Metadata(codec, r).Some? && BaseUriOf(Metadata(codec, r).value) == Some(desired)
  {
    hide BaseUriOf, WithBaseUri, Tail;
    assert KeepsBaseUri(codec, Metadata(codec, encoded).value, desired);
  }

  lemma PayloadHasNoQuote(codec: Codec, desired: Text, encoded: Text)
    requires Lawful(codec) && RewritePayload(codec, desired, encoded).Some?
    ensures var r := RewritePayload(codec, desired, encoded).value;
            forall i :: 0 <= i < |r| ==> IsBase64(r[i]) && !IsQuote(r[i]) && !IsWhitespace(r[i])
  {
    hide BaseUriOf, WithBaseUri;
  }

  /** The payload function settles unless the desired base URI is the legacy one, and some payload has that. */
  lemma PayloadSettlesExactlyWhen(codec: Codec, desired: Text)
    requires Lawful(codec) && Tail([], desired) == Some([])
    ensures Settles(PayloadRewriter(codec, desired)) <==>
            desired != LEGACY_BASE_URI || forall encoded :: !CarriesLegacyUri(codec, encoded)
  {
    hide Lawful, Tail, BaseUriOf, Metadata;
    var payload := PayloadRewriter(codec, desired);
    forall encoded: Text | payload(encoded).Some?
      ensures SINGLE_QUOTE !in payload(encoded).value && DOUBLE_QUOTE !in payload(encoded).value
      ensures payload(payload(encoded).value) == None <==> desired != LEGACY_BASE_URI
    {
      PayloadCarriesBaseUri(codec, desired, encoded);
      PayloadHasNoQuote(codec, desired, encoded);
    }
    forall encoded: Text ensures payload(encoded).Some? <==> CarriesLegacyUri(codec, encoded) {
    }
  }

  /** The base URI of a proxy name differs from the legacy one exactly when there is a base path. */
  lemma DesiredIsLegacyOnlyWithoutBase(base: Text)
    ensures base + LEGACY_BASE_URI == LEGACY_BASE_URI <==> base == []
  {
    if base == [] {
      assert base + LEGACY_BASE_URI == LEGACY_BASE_URI;
    } else {
      assert |base + LEGACY_BASE_URI| > |LEGACY_BASE_URI|;
    }
  }

  lemma DesiredIsText(base: Text)
    requires Tail([], base) == Some([])
    ensures Tail([], base + LEGACY_BASE_URI) == Some([])
  {
    AsciiIsAccepted(LEGACY_BASE_URI);
    TailOfConcat([], base, LEGACY_BASE_URI);
  }

  /** For a non-empty base path the whole transform is idempotent. */
  lemma MigMetaIsIdempotent(codec: Codec, base: Text, s: Text)
    requires Lawful(codec) && base != [] && Tail([], base) == Some([])
    ensures var payload := PayloadRewriter(codec, base + LEGACY_BASE_URI);
            Splice(payload, Splice(payload, s)) == Splice(payload, s)
  {
    hide Settles, Lawful, Splice, Tail, PayloadRewriter;
    DesiredIsText(base);
    DesiredIsLegacyOnlyWithoutBase(base);
    PayloadSettlesExactlyWhen(codec, base + LEGACY_BASE_URI);
    SpliceIsIdempotent(PayloadRewriter(codec, base + LEGACY_BASE_URI), s);
  }

  // The laws can be met: two letters for a byte, and objects with nothing but a base URI.

  function ToLetters(b: Text): Text {
    if b == [] then [] else [0x41 + b[0] / 16, 0x41 + b[0] % 16] + ToLetters(b[1..])
  }

  function FromLetters(t: Text): Option<Text> {
    if t == [] then Some([])
    else if |t| == 1 then None
    else match FromLetters(t[2..])
         case None => None
         case Some(rest) => Some([(t[0] - 0x41) * 16 + (t[1] - 0x41)] + rest)
  }

  function OnlyBaseUri(uri: Text): Json {
    JsonObject([(BASE_URI, JsonString(uri))])
  }

  function LetterCodec(): Codec {
    Codec((t: Text) => FromLetters(t), (b: Text) => ToLetters(b), (t: Text) => Some(OnlyBaseUri(t)),
          (v: Json) => match BaseUriOf(v) case Some(uri) => uri case None => [])
  }

  lemma LettersOfByte(b: Byte)
    ensures (0x41 + b / 16 - 0x41) * 16 + (0x41 + b % 16 - 0x41) == b
    ensures 0x41 <= 0x41 + b / 16 <= 0x50 && 0x41 <= 0x41 + b % 16 <= 0x50
  {
  }

  lemma {:induction false} LettersRoundTrip(b: Text)
    ensures FromLetters(ToLetters(b)) == Some(b)
    ensures forall i :: 0 <= i < |ToLetters(b)| ==> IsBase64(ToLetters(b)[i])
    decreases |b|
  {
    if b != [] {
      LettersOfByte(b[0]);
      LettersRoundTrip(b[1..]);
      var t, rest := ToLetters(b), ToLetters(b[1..]);
      assert t == [0x41 + b[0] / 16, 0x41 + b[0] % 16] + rest && t[2..] == rest;
      assert [b[0]] + b[1..] == b;
    }
  }

  lemma OnlyBaseUriHasIt(uri: Text)
    ensures BaseUriOf(OnlyBaseUri(uri)) == Some(uri)
  {
  }

  /** Some codec is lawful, and with it some payload carries the legacy URI. */
  lemma LetterCodecIsLawful()
    ensures Lawful(LetterCodec())
    ensures CarriesLegacyUri(LetterCodec(), ToLetters(LEGACY_BASE_URI))
  {
    hide ToLetters, FromLetters, IsBase64, OnlyBaseUri, BaseUriOf, WithBaseUri, Tail;
    var codec := LetterCodec();
    forall b: Text
      ensures codec.decode64(codec.encode64(b)) == Some(b)
      ensures forall i: nat :: i < |codec.encode64(b)| ==> IsBase64(codec.encode64(b)[i])
    {
      LettersRoundTrip(b);
    }
    forall encoded: Text, uri: Text | Metadata(codec, encoded).Some?
      ensures KeepsBaseUri(codec, Metadata(codec, encoded).value, uri)
    {
      OnlyBaseUriHasIt(uri);
    }
    OnlyBaseUriHasIt(LEGACY_BASE_URI);
  }
}
