/** When replacing a literal wherever it occurs is idempotent. */
module ExactIdempotence {
  import opened Bytes
  import opened LiteralSpec
  import opened PrependIdempotence

  lemma Unfolds(s: Text, r: Text, text: Text, i: nat)
    requires s != [] && i <= |text|
    ensures Replacing(s, r).Valid()
    ensures At(text, i, s) ==> i + |s| <= |text|
    ensures Substitute(Replacing(s, r), text, i) ==
            if i == |text| then []
            else if At(text, i, s) then r + Substitute(Replacing(s, r), text, i + |s|)
            else [text[i]] + Substitute(Replacing(s, r), text, i + 1)
  {
  }

  /** Where its source does not occur a rule of any kind changes nothing. */
  lemma KeptWithoutSource(rule: Rule, text: Text)
    requires rule.Valid() && !Occurs(rule.source, text)
    ensures Rewritten(rule, text) == text
  {
    hide At;
    SubstituteSkips(rule, text, 0, |text|);
    SubstituteUnfolds(rule, text, |text|);
    assert text[0..|text|] + [] == text;
  }

  lemma KeptWithoutByte(rule: Rule, text: Text, b: Byte)
    requires rule.Valid() && b in rule.source && b !in text
    ensures Rewritten(rule, text) == text
  {
    forall o | 0 <= o <= |text| ensures !At(text, o, rule.source) {
      LacksByte(text, o, rule.source, b);
    }
    KeptWithoutSource(rule, text);
  }

  lemma LacksByte(text: Text, o: nat, s: Text, b: Byte)
    requires b in s && b !in text
    ensures !At(text, o, s)
  {
    var k :| 0 <= k < |s| && s[k] == b;
    if o + |s| <= |text| {
      assert text[o..o + |s|][k] == text[o + k];
    }
  }

  lemma {:induction false} ReplacedByItself(s: Text, text: Text, i: nat)
    requires s != [] && i <= |text|
    ensures Substitute(Replacing(s, s), text, i) == text[i..]
    decreases |text| - i
  {
    hide Substitute, At;
    Unfolds(s, s, text, i);
    if i < |text| {
      if At(text, i, s) {
        AtSplits(text, i, s);
        ReplacedByItself(s, text, i + |s|);
      } else {
        SliceFrom(text, i);
        ReplacedByItself(s, text, i + 1);
      }
    }
  }

  lemma {:induction false} LongerIsNotShorter(s: Text, r: Text, text: Text, i: nat)
    requires s != [] && |r| >= |s| && i <= |text|
    ensures |Substitute(Replacing(s, r), text, i)| >= |text| - i
    decreases |text| - i
  {
    hide Substitute, At;
    Unfolds(s, r, text, i);
    if i < |text| {
      LongerIsNotShorter(s, r, text, if At(text, i, s) then i + |s| else i + 1);
    }
  }

  lemma OccurrenceMakesLonger(s: Text, r: Text, text: Text)
    requires s != [] && |r| > |s| && Occurs(s, text)
    ensures |Rewritten(Replacing(s, r), text)| > |text|
  {
    hide Substitute, At;
    var m :| 0 <= m <= |text| && At(text, m, s);
    var first := FirstOccurrence(text, m, s);
    SubstituteSkips(Replacing(s, r), text, 0, first);
    Unfolds(s, r, text, first);
    LongerIsNotShorter(s, r, text, first + |s|);
  }

  // A literal that begins with a byte it does not hold again, like a path of one segment.

  predicate OnlyBeginsWith(s: Text, c: Byte) {
    s != [] && s[0] == c && c !in s[1..]
  }

  /** A non-empty end of `r` begins `s`. */
  predicate EndBegins(r: Text, s: Text) {
    exists o :: 0 <= o < |r| && r[o..] <= s
  }

  lemma NotInRest(s: Text, c: Byte, k: nat)
    requires OnlyBeginsWith(s, c) && 0 < k < |s|
    ensures s[k] != c && c !in s[k..]
  {
    assert s[k] == s[1..][k - 1];
    assert s[k..] == s[1..][k - 1..];
  }

  /** An end of the source begins the output only where it begins the text. */
  lemma {:induction false} EndStays(s: Text, r: Text, c: Byte, text: Text, i: nat, k: nat)
    requires OnlyBeginsWith(s, c) && r != [] && r[0] == c
    requires 0 < k <= |s| && i <= |text| && s[k..] <= Substitute(Replacing(s, r), text, i)
    ensures s[k..] <= text[i..]
    decreases |text| - i
  {
    hide Substitute, At;
    Unfolds(s, r, text, i);
    if k == |s| || i == |text| {
      assert s[k..] == [];
    } else {
      NotInRest(s, c, k);
      assert s[k..][0] == s[k] && !At(text, i, s);
      var rest := Substitute(Replacing(s, r), text, i + 1);
      PrefixOfCons(s[k..], text[i], rest);
      assert s[k..][1..] == s[k + 1..];
      SliceFrom(text, i);
      EndStays(s, r, c, text, i + 1, k + 1);
      PrefixOfCons(s[k..], text[i], text[i + 1..]);
    }
  }

  lemma NotBeforeReplacement(s: Text, r: Text, rest: Text, o: nat)
    requires !Occurs(s, r) && !EndBegins(r, s) && o < |r|
    ensures !At(r + rest, o, s)
  {
    hide At;
    AtBegins(r + rest, o, s);
    DropOfConcat(r, rest, o);
    AtBegins(r, o, s);
    if |s| <= |r| - o {
      PrefixWithin(s, r[o..], rest);
    } else {
      ShorterBegins(r[o..], s, rest);
    }
  }

  lemma ShorterBegins(end: Text, s: Text, rest: Text)
    requires |end| <= |s|
    ensures s <= end + rest ==> end <= s
  {
    assert (end + rest)[..|end|] == end;
    PrefixWithin(end, s, []);
    if s <= end + rest {
      assert s[..|end|] == (end + rest)[..|s|][..|end|];
    }
  }

  /** The output holds no source that could be replaced again. */
  lemma {:induction false} NothingLeft(s: Text, r: Text, c: Byte, text: Text, i: nat)
    requires OnlyBeginsWith(s, c) && r != [] && r[0] == c && !Occurs(s, r) && !EndBegins(r, s) && i <= |text|
    ensures !Occurs(s, Substitute(Replacing(s, r), text, i))
    decreases |text| - i
  {
    hide Substitute, At, EndBegins, OnlyBeginsWith;
    BeginIsNotEmpty(s, c);
    var out := Substitute(Replacing(s, r), text, i);
    Unfolds(s, r, text, i);
    if i == |text| {
      TooShort(s, []);
    } else {
      var step := if At(text, i, s) then r else [text[i]];
      var rest := out[|step|..];
      assert out == step + rest;
      NothingLeft(s, r, c, text, if At(text, i, s) then i + |s| else i + 1);
      forall o | 0 <= o <= |out| ensures !At(out, o, s) {
        if o >= |step| {
          AtShifts(out, |step|, o - |step|, s);
        } else if At(text, i, s) {
          NotBeforeReplacement(s, r, rest, o);
        } else {
          NotAtCopiedByte(s, r, c, text, i);
        }
      }
    }
  }

  lemma BeginIsNotEmpty(s: Text, c: Byte)
    requires OnlyBeginsWith(s, c)
    ensures s != [] && s[0] == c
  {
  }

  lemma TooShort(s: Text, text: Text)
    requires |text| < |s|
    ensures !Occurs(s, text)
  {
  }

  lemma NotAtCopiedByte(s: Text, r: Text, c: Byte, text: Text, i: nat)
    requires OnlyBeginsWith(s, c) && r != [] && r[0] == c && i < |text| && !At(text, i, s)
    ensures !At(Substitute(Replacing(s, r), text, i), 0, s)
  {
    hide Substitute, At;
    Unfolds(s, r, text, i);
    var rest := Substitute(Replacing(s, r), text, i + 1);
    var out := [text[i]] + rest;
    assert out[0..] == out;
    AtBegins(out, 0, s);
    if s <= out {
      PrefixOfCons(s, text[i], rest);
      EndStays(s, r, c, text, i + 1, 1);
      PrefixOfCons(s, text[i], text[i + 1..]);
      SliceFrom(text, i);
      AtBegins(text, i, s);
    }
  }

  lemma IdempotentWhen(s: Text, r: Text, c: Byte)
    requires OnlyBeginsWith(s, c) && r != [] && r[0] == c && !Occurs(s, r) && !EndBegins(r, s)
    ensures Idempotent(Replacing(s, r))
  {
    hide Substitute, Occurs, EndBegins;
    var rule := Replacing(s, r);
    forall text ensures Rewritten(rule, Rewritten(rule, text)) == Rewritten(rule, text) {
      NothingLeft(s, r, c, text, 0);
      KeptWithoutSource(rule, Rewritten(rule, text));
    }
  }

  lemma SourceBetween(s: Text, before: Text, after: Text)
    ensures var x, m := before + s + after, |before|;
            At(x, m, s) && x[0..m] == before && m + |s| <= |x| && x[m + |s|..|x|] == after
  {
    var x, m := before + s + after, |before|;
    assert x[m..m + |s|] == s;
  }

  /** One occurrence in the text, after which the source does not occur again. */
  lemma OneReplacement(s: Text, r: Text, before: Text, after: Text)
    requires s != []
    requires forall j: nat :: j < |before| ==> !At(before + s + after, j, s)
    requires forall j: nat :: |before + s| <= j < |before + s + after| ==> !At(before + s + after, j, s)
    ensures Rewritten(Replacing(s, r), before + s + after) == before + r + after
  {
    hide At, Substitute;
    var rule, x, m := Replacing(s, r), before + s + after, |before|;
    SourceBetween(s, before, after);
    Unfolds(s, r, x, m);
    Unfolds(s, r, x, |x|);
    SubstituteSkips(rule, x, 0, m);
    SubstituteSkips(rule, x, m + |s|, |x|);
    assert after + [] == after;
    Reassociate(before, r, after);
  }

  lemma NotAtOtherByte(s: Text, c: Byte, x: Text, j: nat)
    requires OnlyBeginsWith(s, c) && j < |x| && x[j] != c
    ensures !At(x, j, s)
  {
    if j + |s| <= |x| {
      assert x[j..j + |s|][0] == x[j];
    }
  }

  lemma NotAcrossBeginning(s: Text, c: Byte, x: Text, j: nat, o: nat)
    requires OnlyBeginsWith(s, c) && j < o < |x| && x[o] == c && o < j + |s|
    ensures !At(x, j, s)
  {
    NotInRest(s, c, o - j);
    if j + |s| <= |x| {
      assert x[j..j + |s|][o - j] == x[o];
    }
  }

  /** A text made of pieces of the source that the second pass changes again. */
  ghost predicate IsCounterexample(s: Text, r: Text, x: Text)
    requires s != []
  {
    var rule := Replacing(s, r);
    Rewritten(rule, Rewritten(rule, x)) != Rewritten(rule, x) && forall b <- x :: b in s
  }

  /** With no replacement at all, the source is put together from what was around it. */
  lemma NotIdempotentWhenDeleted(s: Text, c: Byte) returns (x: Text)
    requires OnlyBeginsWith(s, c) && |s| > 1
    ensures IsCounterexample(s, [], x)
  {
    var rule, end := Replacing(s, []), s[1..];
    x := [c] + s + end;
    NotAcrossBeginning(s, c, x, 0, 1);
    forall j: nat | |[c] + s| <= j < |x| ensures !At(x, j, s) {
      assert x[j] == end[j - |[c] + s|];
      NotAtOtherByte(s, c, x, j);
    }
    OneReplacement(s, [], [c], end);
    assert [c] + [] + end == s;
    assert forall j: nat :: |[] + s| <= j < |[] + s + []| ==> !At([] + s + [], j, s);
    OneReplacement(s, [], [], []);
    assert [] + s + [] == s;
    assert Rewritten(rule, Rewritten(rule, x)) == [] != Rewritten(rule, x);
  }

  lemma OccurrenceFills(r: Text, o: nat, s: Text)
    requires At(r, o, s)
    ensures |r| >= |s| && (|r| == |s| ==> r == s)
  {
    if |r| == |s| {
      assert r[0..|s|] == r;
    }
  }

  lemma NotIdempotentWhenSourceInside(s: Text, r: Text) returns (x: Text)
    requires s != [] && r != s && Occurs(s, r)
    ensures IsCounterexample(s, r, x)
  {
    hide Substitute;
    x := s;
    var o :| 0 <= o <= |r| && At(r, o, s);
    OccurrenceFills(r, o, s);
    assert forall j: nat :: |[] + s| <= j < |[] + s + []| ==> !At([] + s + [], j, s);
    OneReplacement(s, r, [], []);
    assert [] + s + [] == s && [] + r + [] == r;
    OccurrenceMakesLonger(s, r, r);
  }

  /** When an end of the replacement begins the source, what is left of the source completes it... */
  lemma SourceIsCompleted(s: Text, r: Text, c: Byte, n: nat)
    requires OnlyBeginsWith(s, c) && 0 < n < |s| && n <= |r| && r[|r| - n..] == s[..n]
    ensures Rewritten(Replacing(s, r), s + s[n..]) == r[..|r| - n] + s
  {
    hide At, Substitute, OnlyBeginsWith;
    var end := s[n..];
    var x := [] + s + end;
    BeginIsNotEmpty(s, c);
    NotInRest(s, c, n);
    forall j: nat | |[] + s| <= j < |x| ensures !At(x, j, s) {
      assert x[j] == end[j - |[] + s|];
      NotAtOtherByte(s, c, x, j);
    }
    OneReplacement(s, r, [], end);
    assert x == s + end && [] + r + end == r + end;
    assert r == r[..|r| - n] + s[..n] && s == s[..n] + end;
    Reassociate(r[..|r| - n], s[..n], end);
  }

  /** ...and is then replaced in its turn. */
  lemma CompletedIsReplaced(s: Text, r: Text, c: Byte, o: nat)
    requires OnlyBeginsWith(s, c) && !Occurs(s, r) && o <= |r|
    ensures Rewritten(Replacing(s, r), r[..o] + s) == r[..o] + r
  {
    hide At, Substitute, OnlyBeginsWith, Occurs;
    BeginIsNotEmpty(s, c);
    var front := r[..o];
    forall j: nat | j < o ensures !At(front + s + [], j, s) {
      NotBeforeSource(s, r, c, o, j);
    }
    OneReplacement(s, r, front, []);
    assert front + s + [] == front + s && front + r + [] == front + r;
  }

  lemma NotIdempotentWhenEndBegins(s: Text, r: Text, c: Byte, o: nat) returns (x: Text)
    requires OnlyBeginsWith(s, c) && r != s && !Occurs(s, r) && o < |r| && r[o..] <= s
    ensures IsCounterexample(s, r, x) && x == s + s[|r| - o..]
  {
    hide At, Substitute;
    var n, front := |r| - o, r[..o];
    AtBegins(r, o, s);
    x := s + s[n..];
    SourceIsCompleted(s, r, c, n);
    CompletedIsReplaced(s, r, c, o);
    assert front + r != front + s by {
      assert (front + r)[o..] == r && (front + s)[o..] == s;
    }
  }

  lemma NotBeforeSource(s: Text, r: Text, c: Byte, o: nat, j: nat)
    requires OnlyBeginsWith(s, c) && !Occurs(s, r) && j < o <= |r|
    ensures !At(r[..o] + s + [], j, s)
  {
    var y := r[..o] + s + [];
    if j + |s| <= o {
      assert y[j..j + |s|] == r[j..j + |s|];
      assert !At(r, j, s);
    } else {
      NotAcrossBeginning(s, c, y, j, o);
    }
  }

  /**
   * Replacing such a literal by a text that begins like it is idempotent exactly when the text is the literal
   * itself, or is not empty, does not hold the literal, and has no end that begins the literal.
   */
  lemma IdempotentExactlyWhen(s: Text, r: Text, c: Byte)
    requires OnlyBeginsWith(s, c) && |s| > 1 && (r == [] || r[0] == c)
    ensures Idempotent(Replacing(s, r)) <==> r == s || (r != [] && !Occurs(s, r) && !EndBegins(r, s))
  {
    hide Substitute, Occurs, OnlyBeginsWith, EndBegins;
    BeginIsNotEmpty(s, c);
    if r == s {
      SameIsIdempotent(s);
    } else if r != [] && !Occurs(s, r) && !EndBegins(r, s) {
      IdempotentWhen(s, r, c);
    } else {
      var x := Counterexample(s, r, c);
    }
  }

  lemma Counterexample(s: Text, r: Text, c: Byte) returns (x: Text)
    requires OnlyBeginsWith(s, c) && |s| > 1 && r != s && (r == [] || Occurs(s, r) || EndBegins(r, s))
    ensures IsCounterexample(s, r, x)
  {
    hide IsCounterexample, Occurs, OnlyBeginsWith;
    BeginIsNotEmpty(s, c);
    if r == [] {
      x := NotIdempotentWhenDeleted(s, c);
    } else if Occurs(s, r) {
      x := NotIdempotentWhenSourceInside(s, r);
    } else {
      var o :| 0 <= o < |r| && r[o..] <= s;
      x := NotIdempotentWhenEndBegins(s, r, c, o);
    }
  }

  lemma SameIsKept(s: Text, text: Text)
    requires s != []
    ensures Rewritten(Replacing(s, s), text) == text
  {
    ReplacedByItself(s, text, 0);
    assert text[0..] == text;
  }

  lemma SameIsIdempotent(s: Text)
    requires s != []
    ensures Idempotent(Replacing(s, s))
  {
    hide Substitute;
    forall text ensures Rewritten(Replacing(s, s), text) == text {
      SameIsKept(s, text);
    }
  }

  // A literal between two equal quotes: neighbours can share one.

  function Quoted(q: Byte, m: Text): Text {
    [q] + m + [q]
  }

  function QuotedRule(q: Byte, b: Text, m: Text): (rule: Rule)
    ensures rule.Valid()
  {
    Replacing(Quoted(q, m), Quoted(q, b + m))
  }

  /** Only at its quotes can a quoted literal begin, and not at the last of them. */
  lemma NotInsideQuotes(q: Byte, m: Text, x: Text, j: nat)
    requires j < |x| && (x[j] != q || j == |x| - 1)
    ensures !At(x, j, Quoted(q, m))
  {
    if j + |m| + 2 <= |x| {
      assert x[j..j + |m| + 2][0] == x[j];
    }
  }

  /** Of two quoted literals that share a quote one pass rewrites the first, and the next pass the second. */
  lemma SharedQuote(q: Byte, b: Text, m: Text)
    requires m != [] && b != [] && q !in m && q !in b
    ensures var rule, body := QuotedRule(q, b, m), Quoted(q, m) + m + [q];
            && Rewritten(rule, body) == Quoted(q, b + m) + m + [q]
            && Rewritten(rule, Rewritten(rule, body)) == [q] + b + m + Quoted(q, b + m)
  {
    hide At, Substitute;
    var s, r, end := Quoted(q, m), Quoted(q, b + m), m + [q];
    var x := [] + s + end;
    forall j: nat | |[] + s| <= j < |x| ensures !At(x, j, s) {
      assert x[j] == end[j - |[] + s|];
      NotInsideQuotes(q, m, x, j);
    }
    OneReplacement(s, r, [], end);
    assert x == s + m + [q] && [] + r + end == r + m + [q];
    var front := [q] + b + m;
    var y := front + s + [];
    assert y == r + m + [q];
    forall j: nat | j < |front| ensures !At(y, j, s) {
      NotBeforeSharedQuote(q, b, m, j);
    }
    OneReplacement(s, r, front, []);
    assert front + r + [] == [q] + b + m + r;
  }

  lemma NotBeforeSharedQuote(q: Byte, b: Text, m: Text, j: nat)
    requires m != [] && b != [] && q !in m && q !in b && j < 1 + |b| + |m|
    ensures !At([q] + b + m + Quoted(q, m) + [], j, Quoted(q, m))
  {
    var inner := b + m;
    var y := [q] + b + m + Quoted(q, m) + [];
    assert forall k :: 0 <= k < |inner| ==> y[1 + k] == inner[k] && inner[k] != q;
    if j == 0 {
      assert y[1 + |m|] == inner[|m|];
      assert y[0..|m| + 2][|m| + 1] == y[|m| + 1];
      assert Quoted(q, m)[|m| + 1] == q;
    } else {
      assert y[j] == inner[j - 1];
      NotInsideQuotes(q, m, y, j);
    }
  }

  /** Two quoted literals that share a quote. */
  function Neighbours(q: Byte, m: Text): Text {
    Quoted(q, m) + m + [q]
  }

  /** An end of a quoted literal begins the output only where it begins the text. */
  lemma {:induction false} QuotedEndStays(q: Byte, b: Text, m: Text, text: Text, i: nat, k: nat)
    requires q !in m && q !in b && 0 < k <= |m| + 2 && i <= |text|
    requires Quoted(q, m)[k..] <= Substitute(QuotedRule(q, b, m), text, i)
    ensures Quoted(q, m)[k..] <= text[i..]
    decreases |text| - i
  {
    hide Substitute, At;
    var s, r := Quoted(q, m), Quoted(q, b + m);
    var v := s[k..];
    Unfolds(s, r, text, i);
    if v == [] || i == |text| {
    } else if At(text, i, s) {
      AtSplits(text, i, s);
      assert v[0] == r[0] == q;
      assert k == |m| + 1 by {
        assert k < |m| + 1 ==> s[k] == m[k - 1];
      }
      assert v == [q];
    } else {
      PrefixOfCons(v, text[i], Substitute(QuotedRule(q, b, m), text, i + 1));
      assert v[1..] == s[k + 1..];
      QuotedEndStays(q, b, m, text, i + 1, k + 1);
      SliceFrom(text, i);
      PrefixOfCons(v, text[i], text[i + 1..]);
    }
  }

  /** Without such neighbours nothing is left to replace... */
  lemma {:induction false} NoneLeftWithoutNeighbours(q: Byte, b: Text, m: Text, text: Text, i: nat)
    requires m != [] && b != [] && q !in m && q !in b && i <= |text|
    requires forall j: nat :: !At(text, j, Neighbours(q, m))
    ensures forall j: nat :: !At(Substitute(QuotedRule(q, b, m), text, i), j, Quoted(q, m))
    decreases |text| - i
  {
    hide Substitute, At, Quoted, Neighbours;
    var s, r, rule := Quoted(q, m), Quoted(q, b + m), QuotedRule(q, b, m);
    var out := Substitute(rule, text, i);
    QuotedBytes(q, m);
    Unfolds(s, r, text, i);
    if i == |text| {
      forall j: nat ensures !At(out, j, s) {
        TooShort(s, out);
        NotBeyond(out, j, s);
      }
    } else if At(text, i, s) {
      var rest := Substitute(rule, text, i + |s|);
      NoneLeftWithoutNeighbours(q, b, m, text, i + |s|);
      forall j: nat ensures !At(out, j, s) {
        NoneInReplacement(q, b, m, text, i, j);
      }
    } else {
      var rest := Substitute(rule, text, i + 1);
      NoneLeftWithoutNeighbours(q, b, m, text, i + 1);
      forall j: nat ensures !At(out, j, s) {
        if j == 0 {
          NotAtCopied(q, b, m, text, i);
        } else {
          assert out[1..] == rest;
          AtShifts(out, 1, j - 1, s);
        }
      }
    }
  }

  lemma QuotedBytes(q: Byte, m: Text)
    ensures |Quoted(q, m)| == |m| + 2 && Quoted(q, m)[0] == q && Quoted(q, m)[|m| + 1] == q
    ensures forall k :: 0 < k <= |m| ==> Quoted(q, m)[k] == m[k - 1]
    ensures Quoted(q, m)[1..] == m + [q]
  {
  }

  lemma QuotedHolds(q: Byte, m: Text)
    ensures Quoted(q, m) != [] && Quoted(q, m)[0] == q && Neighbours(q, m) != [] && Neighbours(q, m)[0] == q
    ensures forall b :: b in Quoted(q, m) <==> b == q || b in m
    ensures forall b :: b in Neighbours(q, m) <==> b == q || b in m
  {
    assert forall b :: b in Quoted(q, m) <==> b in [q] || b in m;
    assert Neighbours(q, m) == Quoted(q, m) + (m + [q]);
  }

  lemma QuotedBeginsOutside(q: Byte, b: Text, m: Text, v: Text)
    requires q !in v
    ensures BeginsOutside(QuotedRule(q, b, m), v)
    ensures v != [] && v[0] !in b && v[0] !in m ==> IsOutsider(QuotedRule(q, b, m), v)
  {
    QuotedHolds(q, m);
    QuotedHolds(q, b + m);
    hide Quoted;
    if v != [] && v[0] !in b && v[0] !in m {
      assert v[0] in v;
      assert v[0] != q && v[0] !in b + m;
      assert v[0] !in Quoted(q, m) && v[0] !in Quoted(q, b + m);
    }
  }

  lemma NotBeyond(text: Text, j: nat, s: Text)
    requires |text| < |s|
    ensures !At(text, j, s)
  {
  }

  lemma NotAtCopied(q: Byte, b: Text, m: Text, text: Text, i: nat)
    requires q !in m && q !in b && i < |text| && !At(text, i, Quoted(q, m))
    ensures !At(Substitute(QuotedRule(q, b, m), text, i), 0, Quoted(q, m))
  {
    hide Substitute, At, Quoted;
    var s, rule := Quoted(q, m), QuotedRule(q, b, m);
    QuotedBytes(q, m);
    Unfolds(s, Quoted(q, b + m), text, i);
    var rest := Substitute(rule, text, i + 1);
    var out := [text[i]] + rest;
    assert out[0..] == out;
    AtBegins(out, 0, s);
    if s <= out {
      PrefixOfCons(s, text[i], rest);
      QuotedEndStays(q, b, m, text, i + 1, 1);
      PrefixOfCons(s, text[i], text[i + 1..]);
      SliceFrom(text, i);
      AtBegins(text, i, s);
    }
  }

  lemma NoneInReplacement(q: Byte, b: Text, m: Text, text: Text, i: nat, j: nat)
    requires m != [] && b != [] && q !in m && q !in b
    requires At(text, i, Quoted(q, m)) && !At(text, i, Neighbours(q, m))
    requires var rest := Substitute(QuotedRule(q, b, m), text, i + |Quoted(q, m)|);
             forall o: nat :: !At(rest, o, Quoted(q, m))
    ensures !At(Quoted(q, b + m) + Substitute(QuotedRule(q, b, m), text, i + |Quoted(q, m)|), j, Quoted(q, m))
  {
    hide Substitute, At, Quoted, Neighbours;
    var s, r := Quoted(q, m), Quoted(q, b + m);
    QuotedBytes(q, m);
    QuotedBytes(q, b + m);
    AtSplits(text, i, s);
    var next := i + |s|;
    var rest := Substitute(QuotedRule(q, b, m), text, next);
    var out := r + rest;
    if j >= |r| {
      assert out[|r|..] == rest;
      AtShifts(out, |r|, j - |r|, s);
    } else if At(out, j, s) {
      AtHasByte(out, j, s, j);
      assert out[j] == r[j] == q;
      if j == 0 {
        AtHasByte(out, 0, s, |m| + 1);
        assert r[|m| + 1] == (b + m)[|m|];
      } else {
        assert j < |b + m| + 1 ==> r[j] == (b + m)[j - 1];
        assert j == |b + m| + 1;
        QuoteIsShared(q, b, m, text, next, r, rest);
        SharedWithNext(q, m, text, i);
      }
    }
  }

  /** What follows the closing quote completes a quoted literal in the text, too. */
  lemma QuoteIsShared(q: Byte, b: Text, m: Text, text: Text, next: nat, r: Text, rest: Text)
    requires q !in m && q !in b && next <= |text| && rest == Substitute(QuotedRule(q, b, m), text, next)
    requires r != [] && At(r + rest, |r| - 1, Quoted(q, m))
    ensures Quoted(q, m)[1..] <= text[next..]
  {
    hide Substitute, Quoted;
    QuotedBytes(q, m);
    var s, out := Quoted(q, m), r + rest;
    AtBegins(out, |r| - 1, s);
    assert out[|r| - 1..] == [r[|r| - 1]] + rest;
    PrefixOfCons(s, r[|r| - 1], rest);
    QuotedEndStays(q, b, m, text, next, 1);
  }

  lemma SharedWithNext(q: Byte, m: Text, text: Text, i: nat)
    requires At(text, i, Quoted(q, m)) && Quoted(q, m)[1..] <= text[i + |Quoted(q, m)|..]
    ensures At(text, i, Neighbours(q, m))
  {
    hide Quoted;
    QuotedBytes(q, m);
    AtSplits(text, i, Quoted(q, m));
    AtBegins(text, i, Neighbours(q, m));
    Reassociate(Quoted(q, m), m, [q]);
    assert text[i..] == Quoted(q, m) + text[i + |Quoted(q, m)|..];
  }

  /** ...and with them, the first pass leaves one of the two. */
  lemma {:induction false} NeighbourIsLeft(q: Byte, b: Text, m: Text, text: Text, i: nat, j: nat) returns (o: nat)
    requires m != [] && q !in m && q !in b && i <= j && i <= |text| && At(text, j, Neighbours(q, m))
    ensures At(Substitute(QuotedRule(q, b, m), text, i), o, Quoted(q, m))
    decreases |text| - i
  {
    hide Substitute, At, Quoted, Neighbours;
    var s, r, rule := Quoted(q, m), Quoted(q, b + m), QuotedRule(q, b, m);
    NeighboursBegin(q, m, text, j);
    QuotedBytes(q, m);
    Unfolds(s, r, text, i);
    if At(text, i, s) {
      var next := i + |s|;
      if s[1..] <= text[next..] {
        o := LeftAfterMatch(q, b, m, text, next);
      } else {
        NextIsBeyond(q, m, text, i, j);
        o := NeighbourIsLeft(q, b, m, text, next, j);
        assert (r + Substitute(rule, text, next))[|r|..] == Substitute(rule, text, next);
        AtShifts(r + Substitute(rule, text, next), |r|, o, s);
        o := |r| + o;
      }
    } else {
      o := NeighbourIsLeft(q, b, m, text, i + 1, j);
      var out := [text[i]] + Substitute(rule, text, i + 1);
      assert out[1..] == Substitute(rule, text, i + 1);
      AtShifts(out, 1, o, s);
      o := o + 1;
    }
  }

  lemma NeighboursBegin(q: Byte, m: Text, text: Text, j: nat)
    requires At(text, j, Neighbours(q, m))
    ensures j < |text| && At(text, j, Quoted(q, m)) && Quoted(q, m)[1..] <= text[j + |Quoted(q, m)|..]
  {
    hide Quoted;
    QuotedBytes(q, m);
    var s := Quoted(q, m);
    AtSplits(text, j, Neighbours(q, m));
    Reassociate(s, m, [q]);
    Reassociate(s, m + [q], text[j + |Neighbours(q, m)|..]);
    AtBegins(text, j, s);
    assert text[j..][|s|..] == text[j + |s|..];
  }

  /** Neighbours that do not begin with a match begin after it, or share its closing quote. */
  lemma NextIsBeyond(q: Byte, m: Text, text: Text, i: nat, j: nat)
    requires q !in m && i <= j && At(text, i, Quoted(q, m)) && At(text, j, Neighbours(q, m))
    requires i + |Quoted(q, m)| <= |text| && !(Quoted(q, m)[1..] <= text[i + |Quoted(q, m)|..])
    ensures j >= i + |Quoted(q, m)|
  {
    hide Quoted, Neighbours, At;
    NeighboursBegin(q, m, text, j);
    QuotedBytes(q, m);
    var s := Quoted(q, m);
    if j < i + |s| {
      AtHasByte(text, j, s, j);
      AtHasByte(text, i, s, j);
      assert j == i || j == i + |m| + 1;
      AtBegins(text, j, s);
      if j > i {
        assert s[1..] <= text[j..][1..] by { assert s == text[j..][..|s|]; }
        assert text[j..][1..] == text[j + 1..];
      }
    }
  }

  lemma LeftAfterMatch(q: Byte, b: Text, m: Text, text: Text, next: nat) returns (o: nat)
    requires q !in m && next <= |text| && Quoted(q, m)[1..] <= text[next..]
    ensures At(Quoted(q, b + m) + Substitute(QuotedRule(q, b, m), text, next), o, Quoted(q, m))
  {
    hide Substitute, At, Quoted;
    var s, r, rule := Quoted(q, m), Quoted(q, b + m), QuotedRule(q, b, m);
    QuotedBytes(q, m);
    QuotedBytes(q, b + m);
    var end := next + |m|;
    assert text[next..][..|m| + 1] == m + [q];
    assert text[next..end] == m && text[end] == q;
    forall j | next <= j < end ensures !At(text, j, s) {
      assert text[j] == m[j - next];
      if At(text, j, s) {
        AtHasByte(text, j, s, j);
      }
    }
    SubstituteSkips(rule, text, next, end);
    Unfolds(s, r, text, end);
    var last := Substitute(rule, text, end);
    assert last[0] == q && last == [q] + last[1..];
    o := |r| - 1;
    var out := r + (m + last);
    assert out[o..] == [q] + (m + ([q] + last[1..]));
    assert s == [q] + (m + [q]);
    Reassociate(m, [q], last[1..]);
    Reassociate([q], m + [q], last[1..]);
    AtBegins(out, o, s);
  }

  /** A second pass changes what the first made of a text exactly when two quoted literals shared a quote in it. */
  lemma QuotedSettlesExactlyWhen(q: Byte, b: Text, m: Text, text: Text)
    requires m != [] && b != [] && q !in m && q !in b
    ensures var rule := QuotedRule(q, b, m);
            Rewritten(rule, Rewritten(rule, text)) == Rewritten(rule, text) <==> !Occurs(Neighbours(q, m), text)
  {
    hide Substitute, At, Neighbours;
    var rule := QuotedRule(q, b, m);
    if Occurs(Neighbours(q, m), text) {
      var j :| 0 <= j <= |text| && At(text, j, Neighbours(q, m));
      var o := NeighbourIsLeft(q, b, m, text, 0, j);
      AtIsWithin(Rewritten(rule, text), o, Quoted(q, m));
      OccurrenceMakesLonger(Quoted(q, m), Quoted(q, b + m), Rewritten(rule, text));
    } else {
      forall j: nat ensures !At(text, j, Neighbours(q, m)) {
        if j > |text| {
          AtIsWithin(text, j, Neighbours(q, m));
        }
      }
      NoneLeftWithoutNeighbours(q, b, m, text, 0);
      KeptWithoutSource(rule, Rewritten(rule, text));
    }
  }
}
