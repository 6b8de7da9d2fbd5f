/** A text as what stands between the occurrences of a literal, and what a stage makes of it piece by piece. */
module Occurrences {
  import opened Bytes
  import opened LiteralSpec
  import opened ExpressionSpec
  import opened ExactIdempotence
  import AppendIdempotence

  /** The pieces, each behind one more occurrence of the literal. */
  function Joined(s: Text, pieces: seq<Text>): Text {
    if pieces == [] then [] else s + pieces[0] + Joined(s, pieces[1..])
  }

  /** No occurrence but those between the pieces. */
  ghost predicate HoldNone(s: Text, front: Text, pieces: seq<Text>) {
    !Occurs(s, front) && forall p <- pieces :: !Occurs(s, p)
  }

  lemma JoinedStart(s: Text, pieces: seq<Text>)
    requires pieces != []
    ensures Joined(s, pieces) == s + (pieces[0] + Joined(s, pieces[1..]))
  {
    Reassociate(s, pieces[0], Joined(s, pieces[1..]));
  }

  /** Every text is made up like this. */
  lemma {:induction false} Splits(text: Text, s: Text) returns (front: Text, pieces: seq<Text>)
    requires s != []
    ensures text == front + Joined(s, pieces) && HoldNone(s, front, pieces)
    decreases |text|
  {
    hide At, Occurs;
    if Occurs(s, text) {
      var o := OccursSomewhere(s, text);
      o := FirstOccurrence(text, o, s);
      AtSplits(text, o, s);
      front := text[..o];
      var rest, more := Splits(text[o + |s|..], s);
      pieces := [rest] + more;
      assert pieces[1..] == more;
      JoinedStart(s, pieces);
      assert text == front + text[o..];
      NotInFront(text, o, s);
    } else {
      front, pieces := text, [];
      assert text == front + [];
    }
  }

  lemma NotInFront(text: Text, o: nat, s: Text)
    requires s != [] && o <= |text| && forall j: nat :: j < o ==> !At(text, j, s)
    ensures !Occurs(s, text[..o])
  {
    hide At;
    assert text[..o] + text[o..] == text;
    if Occurs(s, text[..o]) {
      var j := OccursSomewhere(s, text[..o]);
      AtHasByte(text[..o], j, s, j);
      AtIsWithin(text[..o], j, s);
      AtIsStable(text[..o], text[o..], j, s);
    }
  }

  /** In front of the next piece there is nothing to be found. */
  lemma NothingBefore(s: Text, b: Byte, text: Text, i: nat, front: Text, pieces: seq<Text>, j: nat)
    requires OnlyBeginsWith(s, b) && !Occurs(s, front) && i <= j < i + |front|
    requires i <= |text| && text[i..] == front + Joined(s, pieces)
    ensures !At(text, j, s)
  {
    hide At, Occurs;
    var rest, m := Joined(s, pieces), i + |front|;
    if At(text, j, s) {
      AtShifts(text, i, j - i, s);
      AtIsWithin(front + rest, j - i, s);
      if j + |s| <= m {
        AtIsStable(front, rest, j - i, s);
        OccursAt(front, j - i, s);
      } else {
        assert rest != [];
        JoinedStart(s, pieces);
        assert rest[0] == s[0] && (front + rest)[|front|] == rest[0];
        AtHasByte(front + rest, j - i, s, |front|);
      }
    }
  }

  lemma OccurrenceBehind(s: Text, text: Text, m: nat, pieces: seq<Text>)
    requires s != [] && m <= |text| && pieces != [] && text[m..] == Joined(s, pieces)
    ensures At(text, m, s) && m + |s| <= |text|
    ensures text[m + |s|..] == pieces[0] + Joined(s, pieces[1..])
  {
    JoinedStart(s, pieces);
    AtBegins(text, m, s);
    AtSplits(text, m, s);
    assert text[m..][|s|..] == text[m + |s|..];
  }

  // Replacing every occurrence.

  lemma {:induction false} ReplacedFrom(s: Text, b: Byte, r: Text, text: Text, i: nat, front: Text, pieces: seq<Text>)
    requires OnlyBeginsWith(s, b) && HoldNone(s, front, pieces)
    requires i <= |text| && text[i..] == front + Joined(s, pieces)
    ensures Replacing(s, r).Valid()
    ensures Substitute(Replacing(s, r), text, i) == front + Joined(r, pieces)
    decreases |pieces|
  {
    hide At, Occurs, Substitute;
    var rule, m := Replacing(s, r), i + |front|;
    forall j | i <= j < m ensures !At(text, j, s) {
      NothingBefore(s, b, text, i, front, pieces, j);
    }
    SubstituteSkips(rule, text, i, m);
    assert text[i..m] == front && text[m..] == Joined(s, pieces);
    SubstituteUnfolds(rule, text, m);
    if pieces != [] {
      OccurrenceBehind(s, text, m, pieces);
      assert pieces[0] in pieces;
      ReplacedFrom(s, b, r, text, m + |s|, pieces[0], pieces[1..]);
      JoinedStart(r, pieces);
    }
  }

  /** All occurrences are replaced, and nothing else. */
  lemma ReplacedBetweenPieces(s: Text, b: Byte, r: Text, front: Text, pieces: seq<Text>)
    requires OnlyBeginsWith(s, b) && HoldNone(s, front, pieces)
    ensures Rewritten(Replacing(s, r), front + Joined(s, pieces)) == front + Joined(r, pieces)
  {
    var text := front + Joined(s, pieces);
    assert text[0..] == text;
    ReplacedFrom(s, b, r, text, 0, front, pieces);
  }

  // Inserting behind every occurrence.

  /** The pieces behind the literal, and behind what is inserted but where it stands already. */
  function Inserted(s: Text, t: Text, pieces: seq<Text>): Text {
    if pieces == [] then []
    else s + ((if t <= pieces[0] then [] else t) + pieces[0]) + Inserted(s, t, pieces[1..])
  }

  lemma InsertedStart(s: Text, t: Text, pieces: seq<Text>)
    requires pieces != []
    ensures Inserted(s, t, pieces) ==
            (if t <= pieces[0] then s else s + t) + (pieces[0] + Inserted(s, t, pieces[1..]))
  {
    var p, rest := pieces[0], Inserted(s, t, pieces[1..]);
    Reassociate(s, p, rest);
    Reassociate(s, t + p, rest);
    Reassociate(s, t, p);
    Reassociate(s + t, p, rest);
    assert [] + p == p;
  }

  /** What follows an occurrence stands in the piece behind it. */
  lemma FollowsInPiece(s: Text, b: Byte, t: Text, pieces: seq<Text>)
    requires OnlyBeginsWith(s, b) && b !in t && pieces != []
    ensures t <= pieces[0] + Joined(s, pieces[1..]) <==> t <= pieces[0]
  {
    hide Joined;
    var p, rest := pieces[0], Joined(s, pieces[1..]);
    JoinedBegins(s, b, pieces[1..]);
    if t <= p + rest && |p| < |t| {
      LongerPrefix(t, p, rest);
    }
  }

  lemma JoinedBegins(s: Text, b: Byte, pieces: seq<Text>)
    requires OnlyBeginsWith(s, b)
    ensures Joined(s, pieces) == [] || Joined(s, pieces)[0] == b
  {
    if pieces != [] {
      JoinedStart(s, pieces);
    }
  }

  lemma LongerPrefix(t: Text, p: Text, rest: Text)
    requires t <= p + rest && |p| < |t|
    ensures rest != [] && rest[0] in t
  {
    assert t[|p|] == (p + rest)[|p|] == rest[0];
  }

  lemma {:induction false} InsertedFrom(s: Text, b: Byte, t: Text, text: Text, i: nat, front: Text, pieces: seq<Text>)
    requires OnlyBeginsWith(s, b) && b !in t && HoldNone(s, front, pieces)
    requires i <= |text| && text[i..] == front + Joined(s, pieces)
    ensures Appending(s, t).Valid()
    ensures Substitute(Appending(s, t), text, i) == front + Inserted(s, t, pieces)
    decreases |pieces|
  {
    hide At, Occurs, Substitute, Inserted, Joined;
    var rule, m := Appending(s, t), i + |front|;
    forall j | i <= j < m ensures !At(text, j, s) {
      NothingBefore(s, b, text, i, front, pieces, j);
    }
    SubstituteSkips(rule, text, i, m);
    assert text[i..m] == front && text[m..] == Joined(s, pieces);
    if pieces == [] {
      NoPieces(s, t);
      SubstituteUnfolds(rule, text, m);
    } else {
      OccurrenceBehind(s, text, m, pieces);
      AppendIdempotence.Unfolds(s, t, text, m);
      FollowsInPiece(s, b, t, pieces);
      assert pieces[0] in pieces;
      InsertedFrom(s, b, t, text, m + |s|, pieces[0], pieces[1..]);
      InsertedStart(s, t, pieces);
    }
  }

  lemma NoPieces(s: Text, t: Text)
    ensures Joined(s, []) == [] && Inserted(s, t, []) == []
  {
  }

  /** Behind every occurrence the literal is inserted unless it stands there already, and nothing else changes. */
  lemma InsertedBetweenPieces(s: Text, b: Byte, t: Text, front: Text, pieces: seq<Text>)
    requires OnlyBeginsWith(s, b) && b !in t && HoldNone(s, front, pieces)
    ensures Rewritten(Appending(s, t), front + Joined(s, pieces)) == front + Inserted(s, t, pieces)
  {
    var text := front + Joined(s, pieces);
    assert text[0..] == text;
    InsertedFrom(s, b, t, text, 0, front, pieces);
  }

  // A literal, or an expression between its prefix and its suffix, that there is only one of.

  /** The pattern does not begin among the first `m` bytes. */
  ghost predicate NoneBefore(pattern: Text, text: Text, m: nat) {
    forall j: nat :: j < m ==> !At(text, j, pattern)
  }

  /** The pattern begins nowhere but among `n` bytes from `m` on. */
  ghost predicate OnlyBehind(pattern: Text, text: Text, m: nat, n: nat) {
    forall j: nat :: At(text, j, pattern) ==> m <= j < m + n
  }

  lemma OneSource(rule: Rule, before: Text, after: Text)
    requires rule.Valid() && OnlyBehind(rule.source, before + rule.source + after, |before|, |rule.source|)
    ensures Rewritten(rule, before + rule.source + after) ==
            before + Rendered(rule, before + rule.source + after, |before|) + after
  {
    hide At, Substitute, Rendered;
    var s := rule.source;
    var text, m := before + s + after, |before|;
    SubstituteSkips(rule, text, 0, m);
    assert text[0..m] == before && text[m..] == s + after;
    AtBegins(text, m, s);
    SubstituteUnfolds(rule, text, m);
    SubstituteSkips(rule, text, m + |s|, |text|);
    assert text[m + |s|..|text|] == after;
    SubstituteUnfolds(rule, text, |text|);
    assert after + [] == after;
    Reassociate(before, Rendered(rule, text, m), after);
  }

  /** The only occurrence gets its prefix, unless it has it. */
  lemma OnePrefixed(p: Text, s: Text, before: Text, after: Text)
    requires s != [] && OnlyBehind(s, before + s + after, |before|, |s|)
    ensures Rewritten(Prepending(p, s), before + s + after) ==
            before + (if EndsWith(before, p) then s else p + s) + after
  {
    hide Substitute, OnlyBehind;
    OneSource(Prepending(p, s), before, after);
    assert (before + s + after)[..|before|] == before;
  }

  lemma {:induction false} CopiedFrom(p: Pattern, text: Text, i: nat, after: bool, m: nat, n: nat)
    requires p.Valid() && m + n <= i <= |text| && OnlyBehind(p.prefix, text, m, n)
    ensures Rewrite(p, text, i, after) == text[i..]
  {
    hide At, Rewrite;
    if i == |text| {
      RewriteOfNothing(p, text, after);
    } else {
      RewriteSkips(p, text, i, |text|, after);
      RewriteOfNothing(p, text, IdentifierContinue(text[|text| - 1]));
      assert text[i..|text|] == text[i..] && text[i..] + [] == text[i..];
    }
  }

  lemma CopiedBefore(p: Pattern, before: Text, rest: Text)
    requires p.Valid() && NoneBefore(p.prefix, before + rest, |before|)
    ensures Rewrite(p, before + rest, 0, false) ==
            before + Rewrite(p, before + rest, |before|, EndsInIdentifier(before))
  {
    hide At, Rewrite, IdentifierContinue;
    var text, m := before + rest, |before|;
    if m == 0 {
      assert [] + Rewrite(p, text, 0, false) == Rewrite(p, text, 0, false);
    } else {
      RewriteSkips(p, text, 0, m, false);
      assert text[0..m] == before && text[m - 1] == before[m - 1];
    }
  }

  lemma PartsBehind(before: Text, a: Text, e: Text, b: Text, after: Text)
    ensures var text, m := before + (a + e + b) + after, |before|;
            && text[m..m + |a|] == a && text[m + |a|..m + |a| + |e|] == e
            && text[m + |a| + |e|..m + |a + e + b|] == b && text[m + |a + e + b|..] == after
  {
  }

  lemma MatchBehind(p: Pattern, before: Text, e: Text, after: Text)
    requires p.Valid() && IsExpression(p.syntax, e) && !Extends(p.syntax, p.suffix[0])
    ensures var v := p.prefix + e + p.suffix;
            var text, m := before + v + after, |before|;
            && m + |v| <= |text| && text[m + |v|..] == after
            && MatchAt(p, text, m, false) == Some(|v|) && Expression(p, text, m, |v|) == e
  {
    hide IsExpression, Extends, Candidate;
    ExpressionIsNotEmpty(p.syntax, e);
    var v := p.prefix + e + p.suffix;
    PartsBehind(before, p.prefix, e, p.suffix, after);
    MatchIsExpressionBetween(p, before + v + after, |before|, |v|);
  }

  /** Behind a name even the only prefix is left alone. */
  lemma NothingBehindName(p: Pattern, before: Text, rest: Text)
    requires p.Valid() && EndsInIdentifier(before) && OnlyBehind(p.prefix, before + rest, |before|, 1)
    ensures Rewrite(p, before + rest, 0, false) == before + rest
  {
    hide At, Rewrite, EndsInIdentifier, Candidate;
    var text, m := before + rest, |before|;
    CopiedBefore(p, before, rest);
    if rest == [] {
      RewriteOfNothing(p, text, true);
    } else {
      RewriteUnfolds(p, text, m, true);
      CopiedFrom(p, text, m + 1, IdentifierContinue(text[m]), m, 1);
      assert [text[m]] + text[m + 1..] == rest;
    }
  }

  // The first of several.

  lemma {:induction false} ReplacingShifts(rule: Rule, x: Text, y: Text, i: nat)
    requires rule.Valid() && rule.mode.Exact? && i <= |y|
    ensures Substitute(rule, x + y, |x| + i) == Substitute(rule, y, i)
    decreases |y| - i
  {
    hide At, Substitute;
    var text := x + y;
    SubstituteUnfolds(rule, text, |x| + i);
    SubstituteUnfolds(rule, y, i);
    assert text[|x|..] == y;
    AtShifts(text, |x|, i, rule.source);
    if i < |y| {
      ReplacingShifts(rule, x, y, if At(y, i, rule.source) then i + |rule.source| else i + 1);
    }
  }

  /** The first occurrence is replaced, and what follows it is rewritten on its own. */
  lemma FirstReplaced(s: Text, r: Text, before: Text, after: Text)
    requires s != [] && NoneBefore(s, before + s + after, |before|)
    ensures Rewritten(Replacing(s, r), before + s + after) == before + r + Rewritten(Replacing(s, r), after)
  {
    hide At, Substitute;
    var rule, text, m := Replacing(s, r), before + s + after, |before|;
    SubstituteSkips(rule, text, 0, m);
    assert text[0..m] == before && text[m..] == s + after;
    AtBegins(text, m, s);
    SubstituteUnfolds(rule, text, m);
    ReplacingShifts(rule, before + s, after, 0);
    Reassociate(before, r, Rewritten(rule, after));
  }

  lemma SliceShifts(x: Text, y: Text, i: nat, j: nat)
    requires i <= j <= |y|
    ensures (x + y)[|x| + i..|x| + j] == y[i..j]
  {
  }

  /** The verdict at the end of the stream depends on what follows alone. */
  lemma CandidateShifts(p: Pattern, x: Text, y: Text, i: nat, n: nat)
    requires p.Valid() && At(y, i, p.prefix)
    ensures At(x + y, |x| + i, p.prefix)
    ensures Candidate(p, x + y, |x| + i, true) == Match(n) <==> Candidate(p, y, i, true) == Match(n)
  {
    hide IsExpression, Extends, Candidate, At;
    var text := x + y;
    assert text[|x|..] == y;
    AtShifts(text, |x|, i, p.prefix);
    MatchIsExpressionBetween(p, y, i, n);
    MatchIsExpressionBetween(p, text, |x| + i, n);
    if |p.prefix| + |p.suffix| < n && i + n <= |y| {
      SliceShifts(x, y, i + |p.prefix|, i + n - |p.suffix|);
      AtShifts(text, |x|, i + n - |p.suffix|, p.suffix);
    }
  }

  lemma MatchShifts(p: Pattern, x: Text, y: Text, i: nat, after: bool)
    requires p.Valid() && i <= |y|
    ensures MatchAt(p, x + y, |x| + i, after) == MatchAt(p, y, i, after)
    ensures MatchAt(p, y, i, after).Some? ==>
              var n := MatchAt(p, y, i, after).value;
              && |p.prefix| + |p.suffix| < n && i + n <= |y|
              && Expression(p, x + y, |x| + i, n) == Expression(p, y, i, n)
  {
    hide Candidate, At;
    var text := x + y;
    assert text[|x|..] == y;
    AtShifts(text, |x|, i, p.prefix);
    if At(y, i, p.prefix) {
      forall n: nat
        ensures Candidate(p, text, |x| + i, true) == Match(n) <==> Candidate(p, y, i, true) == Match(n)
      {
        CandidateShifts(p, x, y, i, n);
      }
      var here, there := Candidate(p, y, i, true), Candidate(p, text, |x| + i, true);
      assert here.Match? ==> there == Match(here.length);
      assert there.Match? ==> here == Match(there.length);
      if here.Match? {
        SliceShifts(x, y, i + |p.prefix|, i + here.length - |p.suffix|);
      }
    }
  }

  lemma {:induction false} RewritingShifts(p: Pattern, x: Text, y: Text, i: nat, after: bool)
    requires p.Valid() && i <= |y|
    ensures Rewrite(p, x + y, |x| + i, after) == Rewrite(p, y, i, after)
    decreases |y| - i
  {
    hide *;
    var text := x + y;
    if i == |y| {
      RewriteOfNothing(p, text, after);
      RewriteOfNothing(p, y, after);
    } else {
      RewriteUnfolds(p, text, |x| + i, after);
      RewriteUnfolds(p, y, i, after);
      MatchShifts(p, x, y, i, after);
      match MatchAt(p, y, i, after)
      case Some(n) => RewritingShifts(p, x, y, i + n, EndsInIdentifier(Render(p, Expression(p, y, i, n))));
      case None => RewritingShifts(p, x, y, i + 1, IdentifierContinue(y[i]));
    }
  }

  /** The first expression between the prefix and the suffix is rendered, and what follows is rewritten on its own,
      looking back at what was written. */
  lemma FirstExpression(p: Pattern, before: Text, e: Text, after: Text)
    requires p.Valid() && IsExpression(p.syntax, e) && !Extends(p.syntax, p.suffix[0]) && !EndsInIdentifier(before)
    requires NoneBefore(p.prefix, before + (p.prefix + e + p.suffix) + after, |before|)
    ensures Rewrite(p, before + (p.prefix + e + p.suffix) + after, 0, false) ==
            before + Render(p, e) + Rewrite(p, after, 0, EndsInIdentifier(Render(p, e)))
  {
    hide *;
    var v := p.prefix + e + p.suffix;
    var text, m, r := before + v + after, |before|, Render(p, e);
    MatchBehind(p, before, e, after);
    Reassociate(before, v, after);
    CopiedBefore(p, before, v + after);
    ExpressionIsNotEmpty(p.syntax, e);
    RewriteUnfolds(p, text, m, false);
    RewritingShifts(p, before + v, after, 0, EndsInIdentifier(r));
    Reassociate(before, r, Rewrite(p, after, 0, EndsInIdentifier(r)));
  }
}
