/** What a literal rule means on a whole text, with no chunks, no history and no held-back bytes. */
module LiteralSpec {
  import opened Bytes
  import opened Utf8

  datatype Mode =
    | Prepend(replacement: Text, insertedPrefix: Text)
    | Exact(replacement: Text)
    | Append(replacement: Text, insertedSuffix: Text)

  datatype Rule = Rule(source: Text, mode: Mode) {
    /** What the constructors of a rewriter establish. */
    predicate Valid() {
      && source != []
      && (mode.Prepend? ==> mode.replacement == mode.insertedPrefix + source)
      && (mode.Append? ==> mode.replacement == source + mode.insertedSuffix)
    }
  }

  /** An occurrence that already carries what the rule would insert: judged on the original text. */
  predicate AlreadyRewritten(rule: Rule, text: Text, i: nat)
    requires i <= |text|
  {
    match rule.mode
    case Prepend(_, prefix) => EndsWith(text[..i], prefix)
    case Exact(_) => false
    case Append(_, suffix) => At(text, i + |rule.source|, suffix)
  }

  function Rendered(rule: Rule, text: Text, i: nat): Text
    requires i <= |text|
  {
    if AlreadyRewritten(rule, text, i) then rule.source else rule.mode.replacement
  }

  /** Leftmost, non-overlapping substitution of `text` from index `i` on. */
  function Substitute(rule: Rule, text: Text, i: nat): Text
    requires rule.Valid() && i <= |text|
    decreases |text| - i
  {
    if i == |text| then []
    else if At(text, i, rule.source) then Rendered(rule, text, i) + Substitute(rule, text, i + |rule.source|)
    else [text[i]] + Substitute(rule, text, i + 1)
  }

  function Rewritten(rule: Rule, text: Text): Text
    requires rule.Valid()
  {
    Substitute(rule, text, 0)
  }

  ghost predicate Idempotent(rule: Rule)
    requires rule.Valid()
  {
    forall text :: Rewritten(rule, Rewritten(rule, text)) == Rewritten(rule, text)
  }

  // Rules from what they insert: before the source, after it, or in its place.

  function Prepending(p: Text, s: Text): (rule: Rule)
    ensures s != [] ==> rule.Valid()
  {
    Rule(s, Prepend(p + s, p))
  }

  function Appending(s: Text, t: Text): (rule: Rule)
    ensures s != [] ==> rule.Valid()
  {
    Rule(s, Append(s + t, t))
  }

  function Replacing(s: Text, r: Text): (rule: Rule)
    ensures s != [] ==> rule.Valid()
  {
    Rule(s, Exact(r))
  }

  /** Stretches without an occurrence are copied. */
  lemma {:induction false} SubstituteSkips(rule: Rule, text: Text, i: nat, m: nat)
    requires rule.Valid() && i <= m <= |text|
    requires forall j :: i <= j < m ==> !At(text, j, rule.source)
    ensures Substitute(rule, text, i) == text[i..m] + Substitute(rule, text, m)
    decreases m - i
  {
    hide At, AlreadyRewritten;
    if i < m {
      SubstituteSkips(rule, text, i + 1, m);
      assert !At(text, i, rule.source);
      SliceStep(text, i, m);
      Reassociate([text[i]], text[i + 1..m], Substitute(rule, text, m));
    }
  }

  /** Rewriting never shortens a text when it only inserts, and any insertion lengthens it. */
  lemma {:induction false} InsertionGrows(rule: Rule, text: Text, i: nat)
    requires rule.Valid() && !rule.mode.Exact? && i <= |text|
    ensures |Substitute(rule, text, i)| >= |text| - i
    decreases |text| - i
  {
    if i < |text| {
      assert |Rendered(rule, text, i)| >= |rule.source|;
      InsertionGrows(rule, text, if At(text, i, rule.source) then i + |rule.source| else i + 1);
    }
  }

  /** The output is longer than the input by at most one insertion per |source| input bytes. */
  lemma {:induction false} GrowthIsBounded(rule: Rule, text: Text, i: nat) returns (insertions: nat)
    requires rule.Valid() && rule.mode.Prepend? && i <= |text|
    ensures insertions * |rule.source| <= |text| - i
    ensures |Substitute(rule, text, i)| <= |text| - i + insertions * |rule.mode.insertedPrefix|
    decreases |text| - i
  {
    if i == |text| {
      insertions := 0;
    } else if At(text, i, rule.source) {
      var n := GrowthIsBounded(rule, text, i + |rule.source|);
      insertions := n + 1;
      assert insertions * |rule.source| == n * |rule.source| + |rule.source|;
      assert insertions * |rule.mode.insertedPrefix| == n * |rule.mode.insertedPrefix| + |rule.mode.insertedPrefix|;
    } else {
      insertions := GrowthIsBounded(rule, text, i + 1);
    }
  }

  /** Well-formed source and replacement keep text well formed, even read from inside a character. */
  lemma {:induction false} SubstitutePreservesUtf8(rule: Rule, text: Text, i: nat, tail: Text)
    requires rule.Valid() && i <= |text|
    requires Tail([], rule.source) == Some([]) && Tail([], rule.mode.replacement) == Some([])
    requires tail == [] || IsPartial(tail)
    requires Tail(tail, text[i..]) == Some([])
    ensures Tail(tail, Substitute(rule, text, i)) == Some([])
    decreases |text| - i
  {
    hide *;
    SubstituteUnfolds(rule, text, i);
    if i == |text| {
      assert text[i..] == [];
    } else if At(text, i, rule.source) {
      AtSplits(text, i, rule.source);
      var next := i + |rule.source|;
      RenderedIsOneOfTwo(rule, text, i);
      ReplacedTail(tail, rule.source, text[next..], Rendered(rule, text, i), Substitute(rule, text, next));
      SubstitutePreservesUtf8(rule, text, next, []);
    } else {
      assert text[i..] == [text[i]] + text[i + 1..];
      var t := CopiedTail(tail, text[i], text[i + 1..], Substitute(rule, text, i + 1));
      SubstitutePreservesUtf8(rule, text, i + 1, t);
    }
  }

  lemma SubstituteUnfolds(rule: Rule, text: Text, i: nat)
    requires rule.Valid() && i <= |text|
    ensures rule.source != [] && (At(text, i, rule.source) ==> i + |rule.source| <= |text|)
    ensures Substitute(rule, text, i) ==
            if i == |text| then []
            else if At(text, i, rule.source) then Rendered(rule, text, i) + Substitute(rule, text, i + |rule.source|)
            else [text[i]] + Substitute(rule, text, i + 1)
  {
  }

  lemma RenderedIsOneOfTwo(rule: Rule, text: Text, i: nat)
    requires i <= |text|
    ensures Rendered(rule, text, i) == rule.source || Rendered(rule, text, i) == rule.mode.replacement
  {
  }

  /** An occurrence that is followed or preceded by what would be inserted needs nothing; any other gets longer. */
  lemma UnsettledGrows(rule: Rule, text: Text, i: nat)
    requires rule.Valid() && !rule.mode.Exact? && At(text, i, rule.source) && !AlreadyRewritten(rule, text, i)
    ensures |Rendered(rule, text, i)| > |rule.source|
  {
    if rule.mode.Append? && rule.mode.insertedSuffix == [] {
      assert At(text, i + |rule.source|, []);
    }
  }

  /** In a text that the rule leaves alone every occurrence is settled, or overlapped by one that is. */
  lemma {:induction false} SettledOrOverlapped(rule: Rule, text: Text, i: nat, j: nat)
    requires rule.Valid() && !rule.mode.Exact? && i <= j && At(text, j, rule.source)
    requires i <= |text| && |Substitute(rule, text, i)| <= |text| - i
    ensures j <= |text|
    ensures AlreadyRewritten(rule, text, j)
            || exists m: nat :: m < j < m + |rule.source| && At(text, m, rule.source) && AlreadyRewritten(rule, text, m)
    decreases |text| - i
  {
    hide At, AlreadyRewritten, Substitute;
    AtIsWithin(text, j, rule.source);
    SubstituteUnfolds(rule, text, i);
    if At(text, i, rule.source) {
      var next := i + |rule.source|;
      InsertionGrows(rule, text, next);
      RenderedIsOneOfTwo(rule, text, i);
      if !AlreadyRewritten(rule, text, i) {
        UnsettledGrows(rule, text, i);
      }
      if j >= next {
        SettledOrOverlapped(rule, text, next, j);
      }
    } else {
      SettledOrOverlapped(rule, text, i + 1, j);
    }
  }

  /** Where all occurrences from `i` on are settled nothing changes. */
  lemma {:induction false} SettledIsKept(rule: Rule, text: Text, i: nat)
    requires rule.Valid() && i <= |text|
    requires forall j: nat :: At(text, j, rule.source) && i <= j <= |text| ==> AlreadyRewritten(rule, text, j)
    ensures Substitute(rule, text, i) == text[i..]
    decreases |text| - i
  {
    hide At, AlreadyRewritten, Substitute;
    SubstituteUnfolds(rule, text, i);
    if i < |text| {
      if At(text, i, rule.source) {
        AtSplits(text, i, rule.source);
        SettledIsKept(rule, text, i + |rule.source|);
      } else {
        SliceFrom(text, i);
        SettledIsKept(rule, text, i + 1);
      }
    }
  }

  // Patterns that have nothing to do with a rule.

  /** The byte that begins the source, and all that is written for it, is not in the pattern. */
  predicate BeginsOutside(rule: Rule, v: Text) {
    && rule.source != [] && rule.mode.replacement != []
    && rule.source[0] == rule.mode.replacement[0] && rule.source[0] !in v
  }

  /** Such a pattern begins the output exactly where it begins the text. */
  lemma {:induction false} OutsiderBegins(rule: Rule, v: Text, text: Text, i: nat)
    requires rule.Valid() && BeginsOutside(rule, v) && i <= |text|
    ensures v <= Substitute(rule, text, i) <==> v <= text[i..]
    decreases |text| - i
  {
    hide At, Substitute, Rendered;
    SubstituteUnfolds(rule, text, i);
    if v == [] || i == |text| {
    } else if At(text, i, rule.source) {
      AtSplits(text, i, rule.source);
      RenderedIsOneOfTwo(rule, text, i);
      assert v[0] in v;
    } else {
      SliceFrom(text, i);
      PrefixOfCons(v, text[i], text[i + 1..]);
      PrefixOfCons(v, text[i], Substitute(rule, text, i + 1));
      OutsiderBegins(rule, v[1..], text, i + 1);
    }
  }

  /** A pattern that begins neither inside the source nor inside what is written for it. */
  predicate IsOutsider(rule: Rule, v: Text) {
    v != [] && BeginsOutside(rule, v) && v[0] !in rule.source && v[0] !in rule.mode.replacement
  }

  /** Such a pattern occurs in the output exactly when it occurs in the text. */
  lemma {:induction false} OutsiderOccurs(rule: Rule, v: Text, text: Text, i: nat)
    requires rule.Valid() && IsOutsider(rule, v) && i <= |text|
    ensures Occurs(v, Substitute(rule, text, i)) <==> Occurs(v, text[i..])
    decreases |text| - i
  {
    hide At, Substitute, Occurs, Rendered;
    SubstituteUnfolds(rule, text, i);
    if i == |text| {
    } else if At(text, i, rule.source) {
      AtSplits(text, i, rule.source);
      RenderedIsOneOfTwo(rule, text, i);
      OccursBehind(v, rule.source, text[i + |rule.source|..]);
      OccursBehind(v, Rendered(rule, text, i), Substitute(rule, text, i + |rule.source|));
      OutsiderOccurs(rule, v, text, i + |rule.source|);
    } else {
      SliceFrom(text, i);
      OccursNowOrLater(v, text[i], text[i + 1..]);
      OccursNowOrLater(v, text[i], Substitute(rule, text, i + 1));
      OutsiderBegins(rule, v, text, i);
      OutsiderOccurs(rule, v, text, i + 1);
    }
  }

  /** What always follows an outsider still does. */
  lemma {:induction false} FollowerStays(rule: Rule, s: Text, t: Text, text: Text, i: nat)
    requires rule.Valid() && IsOutsider(rule, s) && BeginsOutside(rule, s + t) && i <= |text|
    requires forall j: nat :: At(text, j, s) ==> At(text, j, s + t)
    ensures forall o: nat :: At(Substitute(rule, text, i), o, s) ==> At(Substitute(rule, text, i), o, s + t)
    decreases |text| - i
  {
    hide At, Substitute, Rendered;
    SubstituteUnfolds(rule, text, i);
    var out := Substitute(rule, text, i);
    if i == |text| {
      forall o: nat ensures !At(out, o, s) {
        AtIsWithin(out, o, s);
      }
    } else if At(text, i, rule.source) {
      var front, rest := Rendered(rule, text, i), Substitute(rule, text, i + |rule.source|);
      RenderedIsOneOfTwo(rule, text, i);
      FollowerStays(rule, s, t, text, i + |rule.source|);
      forall o: nat | At(out, o, s) ensures At(out, o, s + t) {
        AtHasByte(out, o, s, o);
        assert o < |front| ==> out[o] == front[o];
        assert out[|front|..] == rest;
        AtShifts(out, |front|, o - |front|, s);
        AtShifts(out, |front|, o - |front|, s + t);
      }
    } else {
      FollowerStays(rule, s, t, text, i + 1);
      forall o: nat | At(out, o, s) ensures At(out, o, s + t) {
        if o == 0 {
          assert out[0..] == out;
          AtBegins(out, 0, s);
          AtBegins(out, 0, s + t);
          OutsiderBegins(rule, s, text, i);
          OutsiderBegins(rule, s + t, text, i);
          AtBegins(text, i, s);
          AtBegins(text, i, s + t);
        } else {
          assert out[1..] == Substitute(rule, text, i + 1);
          AtShifts(out, 1, o - 1, s);
          AtShifts(out, 1, o - 1, s + t);
        }
      }
    }
  }

  lemma OccursBehind(v: Text, front: Text, rest: Text)
    requires v != [] && v[0] !in front
    ensures Occurs(v, front + rest) <==> Occurs(v, rest)
  {
    hide At;
    if Occurs(v, front + rest) {
      var o :| 0 <= o <= |front + rest| && At(front + rest, o, v);
      AtHasByte(front + rest, o, v, o);
      assert o < |front| ==> (front + rest)[o] == front[o];
      assert (front + rest)[|front|..] == rest;
      AtShifts(front + rest, |front|, o - |front|, v);
    }
    if Occurs(v, rest) {
      var o :| 0 <= o <= |rest| && At(rest, o, v);
      assert (front + rest)[|front|..] == rest;
      AtShifts(front + rest, |front|, o, v);
    }
  }

  lemma OccursNowOrLater(v: Text, b: Byte, rest: Text)
    ensures Occurs(v, [b] + rest) <==> v <= [b] + rest || Occurs(v, rest)
  {
    hide At;
    var text := [b] + rest;
    assert text[0..] == text && text[1..] == rest;
    AtBegins(text, 0, v);
    if Occurs(v, text) {
      var o :| 0 <= o <= |text| && At(text, o, v);
      if o > 0 {
        AtShifts(text, 1, o - 1, v);
      }
    }
    if Occurs(v, rest) {
      var o :| 0 <= o <= |rest| && At(rest, o, v);
      AtShifts(text, 1, o, v);
    }
  }
}
