/** Exactly when inserting a suffix after a literal is idempotent. */
module AppendIdempotence {
  import opened Bytes
  import opened LiteralSpec
  import opened PrependIdempotence

  /** The source does not occur inside the suffix. */
  predicate NotInsideSuffix(s: Text, t: Text) {
    forall o :: 0 <= o < |t| ==> !(s <= t[o..])
  }

  /** When the end of the suffix begins the source, what completes the source begins with the suffix. */
  predicate CompletedBySuffix(s: Text, t: Text) {
    forall o :: 0 <= o < |t| && t[o..] <= s ==> t <= s[|t| - o..]
  }

  lemma Unfolds(s: Text, t: Text, text: Text, i: nat)
    requires s != [] && i <= |text|
    ensures Appending(s, t).Valid()
    ensures At(text, i, s) ==> i + |s| <= |text|
    ensures Substitute(Appending(s, t), text, i) ==
            if i == |text| then []
            else if At(text, i, s) then
              (if t <= text[i + |s|..] then s else s + t) + Substitute(Appending(s, t), text, i + |s|)
            else [text[i]] + Substitute(Appending(s, t), text, i + 1)
  {
    if At(text, i, s) {
      AtBegins(text, i + |s|, t);
    }
  }

  /** Every match is written as the source first. */
  lemma MatchBeginsWithSource(s: Text, t: Text, text: Text, i: nat)
    requires s != [] && At(text, i, s)
    ensures s <= Substitute(Appending(s, t), text, i) && s <= text[i..]
  {
    AtSplits(text, i, s);
    Unfolds(s, t, text, i);
  }

  lemma Compatible(a: Text, b: Text, whole: Text)
    requires a <= whole && b <= whole
    ensures a <= b || b <= a
  {
  }

  /** A proper end of the source begins the output only where it begins the text. */
  lemma {:induction false} EndWasThere(s: Text, t: Text, text: Text, i: nat, k: nat)
    requires s != [] && 0 < k <= |s| && i <= |text|
    requires s[k..] <= Substitute(Appending(s, t), text, i)
    ensures s[k..] <= text[i..]
    decreases |text| - i
  {
    hide *;
    var v, rule := s[k..], Appending(s, t);
    Unfolds(s, t, text, i);
    if k == |s| || i == |text| {
      assert v == [];
    } else if At(text, i, s) {
      MatchBeginsWithSource(s, t, text, i);
      Compatible(v, s, Substitute(rule, text, i));
    } else {
      var rest := Substitute(rule, text, i + 1);
      PrefixOfCons(v, text[i], rest);
      assert v[1..] == s[k + 1..];
      SliceFrom(text, i);
      EndWasThere(s, t, text, i + 1, k + 1);
      PrefixOfCons(v, text[i], text[i + 1..]);
    }
  }

  lemma NoNewOccurrence(s: Text, t: Text, text: Text, i: nat)
    requires s != [] && i < |text| && !At(text, i, s)
    ensures !(s <= Substitute(Appending(s, t), text, i))
  {
    hide At, Substitute;
    Unfolds(s, t, text, i);
    var rest := Substitute(Appending(s, t), text, i + 1);
    if s <= [text[i]] + rest {
      PrefixOfCons(s, text[i], rest);
      SliceFrom(text, i);
      EndWasThere(s, t, text, i + 1, 1);
      PrefixOfCons(s, text[i], text[i + 1..]);
      AtBegins(text, i, s);
    }
  }

  /** The suffix, or an end of it, follows in the output exactly where it follows in the text. */
  lemma {:induction false} SuffixFollowsInBoth(s: Text, t: Text, text: Text, i: nat, o: nat)
    requires s != [] && NotInsideSuffix(s, t) && i <= |text| && o <= |t|
    ensures t[o..] <= text[i..] <==> t[o..] <= Substitute(Appending(s, t), text, i)
    decreases |text| - i
  {
    hide Substitute, At;
    var v, rule := t[o..], Appending(s, t);
    Unfolds(s, t, text, i);
    if o == |t| {
      assert v == [];
    } else if i == |text| {
      assert text[i..] == [];
    } else if At(text, i, s) {
      assert !(s <= v);
      MatchBeginsWithSource(s, t, text, i);
      if v <= text[i..] {
        Compatible(v, s, text[i..]);
      }
      if v <= Substitute(rule, text, i) {
        Compatible(v, s, Substitute(rule, text, i));
      }
    } else {
      SliceFrom(text, i);
      PrefixOfCons(v, text[i], text[i + 1..]);
      PrefixOfCons(v, text[i], Substitute(rule, text, i + 1));
      assert v[1..] == t[o + 1..];
      SuffixFollowsInBoth(s, t, text, i + 1, o + 1);
    }
  }

  /** No occurrence begins inside an inserted suffix. */
  lemma NothingInsideInsertion(s: Text, t: Text, text: Text, i: nat, o: nat)
    requires s != [] && NotInsideSuffix(s, t) && CompletedBySuffix(s, t)
    requires i <= |text| && o < |t| && !(t <= text[i..])
    ensures !(s <= t[o..] + Substitute(Appending(s, t), text, i))
  {
    hide *;
    if s <= t[o..] + Substitute(Appending(s, t), text, i) {
      SourceAtInsertion(s, t, text, i, o);
    }
  }

  /** A source that begins inside an inserted suffix is followed by the suffix already in the text. */
  lemma SourceAtInsertion(s: Text, t: Text, text: Text, i: nat, o: nat)
    requires s != [] && NotInsideSuffix(s, t) && CompletedBySuffix(s, t)
    requires i <= |text| && o < |t| && s <= t[o..] + Substitute(Appending(s, t), text, i)
    ensures t <= text[i..]
  {
    hide Substitute;
    var rest := Substitute(Appending(s, t), text, i);
    EndOfPrefix(s, t[o..], rest);
    assert t <= s[|t| - o..] <= rest;
    assert t[0..] == t;
    SuffixFollowsInBoth(s, t, text, i, 0);
  }

  lemma EndOfPrefix(s: Text, v: Text, rest: Text)
    requires s <= v + rest && !(s <= v)
    ensures v <= s && s[|v|..] <= rest
  {
    Compatible(s, v, v + rest);
    assert (v + rest)[..|s|][|v|..] == rest[..|s| - |v|];
  }

  /** The second scan copies an inserted suffix. */
  lemma InsertionIsCopied(s: Text, t: Text, h: Text, text: Text, i: nat)
    requires s != [] && NotInsideSuffix(s, t) && CompletedBySuffix(s, t)
    requires i <= |text| && !(t <= text[i..])
    ensures var rest := Substitute(Appending(s, t), text, i);
            Substitute(Appending(s, t), h + t + rest, |h|) == t + Substitute(Appending(s, t), h + t + rest, |h + t|)
  {
    hide Substitute, At, NotInsideSuffix, CompletedBySuffix;
    var rule, rest := Appending(s, t), Substitute(Appending(s, t), text, i);
    var out := h + t + rest;
    forall j | |h| <= j < |h + t|
      ensures !At(out, j, s)
    {
      NothingInsideInsertion(s, t, text, i, j - |h|);
      assert out[j..] == t[j - |h|..] + rest;
      AtBegins(out, j, s);
    }
    SubstituteSkips(rule, out, |h|, |h + t|);
    assert out[|h|..|h + t|] == t;
  }

  /** The second scan sees a match as already followed by the suffix. */
  lemma OccurrenceIsKept(s: Text, t: Text, h: Text, rest: Text)
    requires s != [] && t <= rest
    ensures Substitute(Appending(s, t), h + (s + rest), |h|)
            == s + Substitute(Appending(s, t), h + s + rest, |h + s|)
  {
    hide Substitute;
    var out := h + s + rest;
    assert h + (s + rest) == out;
    assert out[|h|..|h| + |s|] == s && out[|h + s|..] == rest;
    Unfolds(s, t, out, |h|);
  }

  /** Both together. */
  lemma InsertionIsKept(s: Text, t: Text, h: Text, text: Text, i: nat)
    requires s != [] && NotInsideSuffix(s, t) && CompletedBySuffix(s, t)
    requires i <= |text| && !(t <= text[i..])
    ensures var rest := Substitute(Appending(s, t), text, i);
            Substitute(Appending(s, t), h + (s + t + rest), |h|)
            == s + t + Substitute(Appending(s, t), h + s + t + rest, |h + s + t|)
  {
    hide *;
    var rule, rest := Appending(s, t), Substitute(Appending(s, t), text, i);
    var inner := Substitute(rule, h + s + t + rest, |h + s + t|);
    assert s + t + rest == s + (t + rest) && s + (t + inner) == s + t + inner;
    assert h + s + (t + rest) == h + s + t + rest;
    OccurrenceIsKept(s, t, h, t + rest);
    InsertionIsCopied(s, t, h + s, text, i);
  }

  lemma CopiedByteStays(s: Text, t: Text, h: Text, b: Byte, rest: Text)
    requires s != [] && !(s <= [b] + rest)
    ensures Substitute(Appending(s, t), h + ([b] + rest), |h|)
            == [b] + Substitute(Appending(s, t), h + [b] + rest, |h + [b]|)
  {
    hide Substitute, At;
    var out := h + [b] + rest;
    assert h + ([b] + rest) == out;
    assert out[|h|..] == [b] + rest;
    AtBegins(out, |h|, s);
    Unfolds(s, t, out, |h|);
  }

  lemma {:induction false} SecondPassFrom(s: Text, t: Text, text: Text, i: nat, h: Text)
    requires s != [] && NotInsideSuffix(s, t) && CompletedBySuffix(s, t) && i <= |text|
    ensures var rule := Appending(s, t);
            var output := Substitute(rule, text, i);
            Substitute(rule, h + output, |h|) == output
    decreases |text| - i
  {
    hide *;
    var rule := Appending(s, t);
    var output := Substitute(rule, text, i);
    Unfolds(s, t, text, i);
    if i == |text| {
      assert h + output == h;
      Unfolds(s, t, h, |h|);
    } else if At(text, i, s) {
      var next := i + |s|;
      var rest := Substitute(rule, text, next);
      if t <= text[next..] {
        SuffixFollowsInBoth(s, t, text, next, 0);
        assert t[0..] == t;
        OccurrenceIsKept(s, t, h, rest);
        SecondPassFrom(s, t, text, next, h + s);
      } else {
        InsertionIsKept(s, t, h, text, next);
        SecondPassFrom(s, t, text, next, h + s + t);
      }
    } else {
      var b, rest := text[i], Substitute(rule, text, i + 1);
      NoNewOccurrence(s, t, text, i);
      CopiedByteStays(s, t, h, b, rest);
      SecondPassFrom(s, t, text, i + 1, h + [b]);
    }
  }

  lemma LeftmostMatchChanges(s: Text, t: Text, x: Text, i: nat, m: nat)
    requires s != [] && i <= m && At(x, m, s) && !At(x, m + |s|, t)
    requires forall j :: i <= j < m ==> !At(x, j, s)
    ensures |Substitute(Appending(s, t), x, i)| > |x| - i
  {
    hide At, Substitute;
    AtSplits(x, m, s);
    SubstituteSkips(Appending(s, t), x, i, m);
    Unfolds(s, t, x, m);
    AtBegins(x, m + |s|, t);
    InsertionGrows(Appending(s, t), x, m + |s|);
  }

  /** After a match that has its suffix, a further match too near the end to have one changes the text. */
  lemma LateMatchChanges(s: Text, t: Text, y: Text, o: nat)
    requires s != [] && |y| < |s| && o < |t| && At(t + y, o, s)
    ensures |Rewritten(Appending(s, t), s + t + y)| > |s + t + y|
  {
    hide Substitute, AlreadyRewritten;
    var rule, x := Appending(s, t), s + t + y;
    assert x[..|s|] == s && x[|s|..] == t + y;
    AtBegins(x, 0, s);
    assert x[0..] == x;
    Unfolds(s, t, x, 0);
    var first := FirstOccurrence(t + y, o, s);
    forall j | |s| <= j < |s| + first ensures !At(x, j, s) {
      AtShifts(x, |s|, j - |s|, s);
    }
    AtShifts(x, |s|, first, s);
    LeftmostMatchChanges(s, t, x, |s|, |s| + first);
  }

  lemma NotIdempotentWhenInside(s: Text, t: Text, o: nat)
    requires s != [] && o < |t| && s <= t[o..]
    ensures !Idempotent(Appending(s, t))
  {
    hide Substitute;
    var rule := Appending(s, t);
    Unfolds(s, t, s, 0);
    Unfolds(s, t, s, |s|);
    assert s[0..|s|] == s;
    assert Rewritten(rule, s) == s + t + [];
    AtBegins(t + [], o, s);
    assert (t + [])[o..] == t[o..];
    LateMatchChanges(s, t, [], o);
  }

  lemma NotIdempotentWhenCompleted(s: Text, t: Text, o: nat)
    requires s != [] && o < |t| && t[o..] <= s && !(t <= s[|t| - o..])
    ensures !Idempotent(Appending(s, t))
  {
    hide Substitute;
    var y := s[|t| - o..];
    SourceAndEnd(s, t, y);
    DropOfConcat(t, y, o);
    assert t[o..] + y == s;
    AtBegins(t + y, o, s);
    LateMatchChanges(s, t, y, o);
  }

  /** A source and a piece too short for another, which is not the suffix either. */
  lemma SourceAndEnd(s: Text, t: Text, y: Text)
    requires s != [] && |y| < |s| && !(t <= y)
    ensures Rewritten(Appending(s, t), s + y) == s + t + y
  {
    hide Substitute;
    var rule, x := Appending(s, t), s + y;
    Unfolds(s, t, x, 0);
    assert x[..|s|] == s && x[|s|..] == y;
    SubstituteSkips(rule, x, |s|, |x|);
    Unfolds(s, t, x, |x|);
    assert x[|s|..|x|] == y;
  }

  /** The two conditions are exactly what idempotence takes. */
  lemma IdempotentExactlyWhen(s: Text, t: Text)
    requires s != []
    ensures Idempotent(Appending(s, t)) <==> NotInsideSuffix(s, t) && CompletedBySuffix(s, t)
  {
    hide *;
    if NotInsideSuffix(s, t) && CompletedBySuffix(s, t) {
      IdempotentWhen(s, t);
    } else if !NotInsideSuffix(s, t) {
      var o := SourceInside(s, t);
      NotIdempotentWhenInside(s, t, o);
    } else {
      var o := EndCompletedOtherwise(s, t);
      NotIdempotentWhenCompleted(s, t, o);
    }
  }

  lemma IdempotentWhen(s: Text, t: Text)
    requires s != [] && NotInsideSuffix(s, t) && CompletedBySuffix(s, t)
    ensures Idempotent(Appending(s, t))
  {
    hide NotInsideSuffix, CompletedBySuffix, Substitute;
    var rule := Appending(s, t);
    forall text: Text
      ensures Rewritten(rule, Rewritten(rule, text)) == Rewritten(rule, text)
    {
      SecondPassFrom(s, t, text, 0, []);
      assert [] + Rewritten(rule, text) == Rewritten(rule, text);
    }
  }

  lemma SourceInside(s: Text, t: Text) returns (o: nat)
    requires !NotInsideSuffix(s, t)
    ensures o < |t| && s <= t[o..]
  {
    o :| 0 <= o < |t| && s <= t[o..];
  }

  lemma EndCompletedOtherwise(s: Text, t: Text) returns (o: nat)
    requires !CompletedBySuffix(s, t)
    ensures o < |t| && t[o..] <= s && !(t <= s[|t| - o..])
  {
    o :| 0 <= o < |t| && t[o..] <= s && !(t <= s[|t| - o..]);
  }

  // The template literal of the JavaScript bundle profiles.

  const HOST_LITERAL: Text := Ascii("`//${window.location.host}/")

  /** Inserting after the window host is idempotent for every base path without a backtick. */
  lemma HostLiteralIsIdempotent(suffix: Text)
    requires BACKTICK !in suffix
    ensures Idempotent(Appending(HOST_LITERAL, suffix))
  {
    hide Idempotent;
    var s := HOST_LITERAL;
    assert s[0] == AsciiByte('`') == BACKTICK;
    forall o | 0 <= o < |suffix|
      ensures !(s <= suffix[o..]) && !(suffix[o..] <= s)
    {
      assert suffix[o..][0] == suffix[o];
    }
    IdempotentExactlyWhen(s, suffix);
  }
}
