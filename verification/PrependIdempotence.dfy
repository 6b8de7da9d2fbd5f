/** Exactly when inserting a prefix before a literal is idempotent. */
module PrependIdempotence {
  import opened Bytes
  import opened LiteralSpec

  /** The source occurs in what is inserted only as its end. */
  predicate OnlyAtEnd(p: Text, s: Text) {
    forall o :: 0 <= o < |p| ==> !At(p + s, o, s)
  }

  /** No beginning of the source is completed by what is inserted, unless the source itself would complete it. */
  predicate NeverCompleted(p: Text, s: Text) {
    forall k :: 0 < k < |s| ==> s[k..] <= p + s && !EndsWith(s[..k], p) ==> s[k..] <= s
  }

  /** What is written for a match begins with an end of the source only if the source does. */
  lemma EndAtMatch(p: Text, s: Text, before: Text, rest: Text, k: nat)
    requires s != [] && NeverCompleted(p, s) && 0 < k <= |s| && EndsWith(before, s[..k])
    requires s[k..] <= (if EndsWith(before, p) then s else p + s) + rest
    ensures s[k..] <= s
  {
    if EndsWith(before, p) {
      PrefixWithin(s[k..], s, rest);
    } else if k < |s| {
      if EndsWith(s[..k], p) {
        EndsWithEnd(before, s[..k], p);
      }
      PrefixWithin(s[k..], p + s, rest);
    }
  }

  /** The end of an occurrence that begins in copied bytes is there in the original text, too. */
  lemma {:induction false} EndWasThere(p: Text, s: Text, text: Text, i: nat, k: nat)
    requires s != [] && NeverCompleted(p, s)
    requires 0 < k <= |s| && i <= |text| && EndsWith(text[..i], s[..k])
    requires s[k..] <= Substitute(Prepending(p, s), text, i)
    ensures s[k..] <= text[i..]
    decreases |text| - i
  {
    hide *;
    var rule := Prepending(p, s);
    Unfolds(p, s, text, i);
    if k == |s| || i == |text| {
      assert s[k..] == [];
    } else if At(text, i, s) {
      AtSplits(text, i, s);
      EndAtMatch(p, s, text[..i], Substitute(rule, text, i + |s|), k);
      PrefixWithin(s[k..], s, text[i + |s|..]);
    } else {
      var v, rest := s[k..], Substitute(rule, text, i + 1);
      PrefixOfCons(v, text[i], rest);
      EndsWithMore(text[..i], s[..k], text[i]);
      SliceFrom(text, i);
      SliceFrom(s, k);
      assert v[1..] == s[k + 1..];
      EndWasThere(p, s, text, i + 1, k + 1);
      PrefixOfCons(v, text[i], text[i + 1..]);
    }
  }

  lemma Unfolds(p: Text, s: Text, text: Text, i: nat)
    requires s != [] && i <= |text|
    ensures Prepending(p, s).Valid()
    ensures At(text, i, s) ==> i + |s| <= |text|
    ensures Substitute(Prepending(p, s), text, i) ==
            if i == |text| then []
            else if At(text, i, s) then
              (if EndsWith(text[..i], p) then s else p + s) + Substitute(Prepending(p, s), text, i + |s|)
            else [text[i]] + Substitute(Prepending(p, s), text, i + 1)
  {
  }

  lemma EndsWithEnd(text: Text, end: Text, p: Text)
    requires EndsWith(text, end) && EndsWith(end, p)
    ensures EndsWith(text, p)
  {
  }

  /** Where the source does not occur in the text, it does not occur in the output. */
  lemma NoNewOccurrence(p: Text, s: Text, text: Text, i: nat)
    requires s != [] && NeverCompleted(p, s) && i < |text| && !At(text, i, s)
    ensures !(s <= Substitute(Prepending(p, s), text, i))
  {
    hide NeverCompleted, At, Substitute;
    Unfolds(p, s, text, i);
    var rest := Substitute(Prepending(p, s), text, i + 1);
    if s <= [text[i]] + rest {
      PrefixOfCons(s, text[i], rest);
      SliceFrom(text, i);
      assert s[..1] == [text[i]];
      assert EndsWith(text[..i + 1], s[..1]);
      EndWasThere(p, s, text, i + 1, 1);
      PrefixOfCons(s, text[i], text[i + 1..]);
      AtBegins(text, i, s);
    }
  }

  /** What both texts end with before the scans go on: all there is, or a tail that begins with the source. */
  predicate SameContext(s: Text, h: Text, before: Text, common: Text) {
    EndsWith(h, common) && EndsWith(before, common) && ((common == h && common == before) || s <= common)
  }

  /** A prefix found before the cursor in the original text is there in the output as well. */
  lemma PrefixIsKept(p: Text, s: Text, h: Text, before: Text, common: Text)
    requires s != [] && OnlyAtEnd(p, s) && SameContext(s, h, before, common)
    requires EndsWith(before, p)
    ensures EndsWith(h, p)
  {
    if |p| <= |common| {
      assert p == common[|common| - |p|..];
    } else {
      assert s <= common && EndsWith(p, common);
      var o := |p| - |common|;
      assert At(p + s, o, s);
    }
  }

  lemma ContextGrows(s: Text, h: Text, before: Text, common: Text, b: Byte)
    requires SameContext(s, h, before, common)
    ensures SameContext(s, h + [b], before + [b], common + [b])
  {
  }

  /** Inside what was inserted the second scan finds the source once, at the end, and prefixed. */
  lemma InsertionIsSkipped(p: Text, s: Text, h: Text, rest: Text)
    requires s != [] && OnlyAtEnd(p, s)
    ensures Substitute(Prepending(p, s), h + (p + s + rest), |h|)
            == p + s + Substitute(Prepending(p, s), h + p + s + rest, |h + p + s|)
  {
    hide OnlyAtEnd, At, Substitute;
    var rule, next := Prepending(p, s), h + p + s;
    var text := next + rest;
    assert h + (p + s + rest) == text;
    forall j | |h| <= j < |h| + |p|
      ensures !At(text, j, s)
    {
      NotInside(p, s, j - |h|);
      AtIsStable(next, rest, j, s);
      AtShifts(next, |h|, j - |h|, s);
      assert next[|h|..] == p + s;
    }
    SubstituteSkips(rule, text, |h|, |h| + |p|);
    assert text[|h|..|h| + |p|] == p;
    assert text == h + p + (s + rest);
    assert EndsWith(h + p, p);
    OccurrenceIsKept(p, s, h + p, rest);
    var left := Substitute(rule, text, |next|);
    assert p + (s + left) == p + s + left;
  }

  lemma NotInside(p: Text, s: Text, o: nat)
    requires OnlyAtEnd(p, s) && o < |p|
    ensures !At(p + s, o, s)
  {
  }

  lemma OccurrenceIsKept(p: Text, s: Text, h: Text, rest: Text)
    requires s != [] && EndsWith(h, p)
    ensures Substitute(Prepending(p, s), h + (s + rest), |h|)
            == s + Substitute(Prepending(p, s), h + s + rest, |h + s|)
  {
    hide EndsWith, Substitute;
    var text := h + s + rest;
    assert h + (s + rest) == text;
    assert text[|h|..|h| + |s|] == s && text[..|h|] == h;
    Unfolds(p, s, text, |h|);
  }

  lemma CopiedByteStays(p: Text, s: Text, h: Text, b: Byte, rest: Text)
    requires s != [] && !(s <= [b] + rest)
    ensures Substitute(Prepending(p, s), h + ([b] + rest), |h|)
            == [b] + Substitute(Prepending(p, s), h + [b] + rest, |h + [b]|)
  {
    hide Substitute, At;
    var text := h + [b] + rest;
    assert h + ([b] + rest) == text;
    assert text[|h|..] == [b] + rest;
    AtBegins(text, |h|, s);
    Unfolds(p, s, text, |h|);
  }

  /** The second pass over the output of the first, from matching points on, changes nothing. */
  lemma {:induction false} SecondPassFrom(p: Text, s: Text, text: Text, i: nat, h: Text, common: Text)
    requires s != [] && OnlyAtEnd(p, s) && NeverCompleted(p, s)
    requires i <= |text| && SameContext(s, h, text[..i], common)
    ensures var rule := Prepending(p, s);
            var output := Substitute(rule, text, i);
            Substitute(rule, h + output, |h|) == output
    decreases |text| - i
  {
    hide *;
    var rule := Prepending(p, s);
    var output := Substitute(rule, text, i);
    Unfolds(p, s, text, i);
    if i == |text| {
      assert h + output == h;
      Unfolds(p, s, h, |h|);
    } else if At(text, i, s) {
      AtSplits(text, i, s);
      var next := i + |s|;
      var rest := Substitute(rule, text, next);
      assert text[..next] == text[..i] + s;
      ContextAfter(s, h, text[..i]);
      ContextAfter(s, h + p, text[..i]);
      if EndsWith(text[..i], p) {
        PrefixIsKept(p, s, h, text[..i], common);
        OccurrenceIsKept(p, s, h, rest);
        SecondPassFrom(p, s, text, next, h + s, s);
      } else {
        InsertionIsSkipped(p, s, h, rest);
        SecondPassFrom(p, s, text, next, h + p + s, s);
      }
    } else {
      var b, rest := text[i], Substitute(rule, text, i + 1);
      NoNewOccurrence(p, s, text, i);
      CopiedByteStays(p, s, h, b, rest);
      SliceFrom(text, i);
      ContextGrows(s, h, text[..i], common, b);
      SecondPassFrom(p, s, text, i + 1, h + [b], common + [b]);
    }
  }

  lemma ContextAfter(s: Text, h: Text, before: Text)
    ensures SameContext(s, h + s, before + s, s)
  {
  }

  /** An insertion anywhere makes the text longer. */
  lemma InsertionChanges(rule: Rule, text: Text, m: nat)
    requires rule.Valid() && !rule.mode.Exact? && At(text, m, rule.source)
    requires |rule.mode.replacement| > |rule.source|
    requires forall j: nat :: j <= m && At(text, j, rule.source) ==> !AlreadyRewritten(rule, text, j)
    ensures |Rewritten(rule, text)| > |text|
  {
    hide Substitute, At, AlreadyRewritten;
    var first := FirstOccurrence(text, m, rule.source);
    SubstituteSkips(rule, text, 0, first);
    SubstituteUnfolds(rule, text, first);
    InsertionGrows(rule, text, first + |rule.source|);
  }

  lemma NotIdempotentWhenSourceInside(p: Text, s: Text, o: nat)
    requires s != [] && o < |p| && At(p + s, o, s)
    ensures var once := Rewritten(Prepending(p, s), s); Rewritten(Prepending(p, s), once) != once
    ensures !Idempotent(Prepending(p, s))
  {
    var rule := Prepending(p, s);
    assert At(s, 0, s);
    assert Rewritten(rule, s) == p + s + Substitute(rule, s, |s|) == p + s;
    InsertionChanges(rule, p + s, o);
  }

  /** An occurrence of `s` inside `s[..k] + s` makes `s` periodic, so that its end from `k` on begins it. */
  lemma {:induction false} PeriodicEnd(s: Text, k: nat, j: nat, t: nat)
    requires 0 < j < k < |s| && At(s[..k] + s, j, s) && t < |s| - k
    ensures s[k + t] == s[t]
    decreases t
  {
    var d, x := k - j, s[..k] + s;
    assert forall n :: 0 <= n < |s| ==> x[j + n] == x[j..j + |s|][n] == s[n];
    assert x[j + (k + t)] == s[k + t];
    if t >= d {
      PeriodicEnd(s, k, j, t - d);
      assert x[j + t] == s[t];
    }
  }

  /** Before index `k`, `s[..k] + s` holds no occurrence of `s` when the end from `k` on does not begin it. */
  lemma NoEarlierOccurrence(s: Text, k: nat, j: nat)
    requires j < k < |s| && !(s[k..] <= s)
    ensures !At(s[..k] + s, j, s)
  {
    var x := s[..k] + s;
    if At(x, j, s) {
      if j == 0 {
        assert s[k..] == x[..|s|][k..] == s[..|s| - k];
      } else {
        forall t | 0 <= t < |s| - k ensures s[k..][t] == s[..|s| - k][t] {
          PeriodicEnd(s, k, j, t);
        }
        assert s[k..] == s[..|s| - k];
      }
    }
  }

  lemma NotIdempotentWhenCompleted(p: Text, s: Text, k: nat)
    requires 0 < k < |s| && s[k..] <= p + s && !EndsWith(s[..k], p) && !(s[k..] <= s)
    ensures !Idempotent(Prepending(p, s))
  {
    hide At, Substitute;
    var rule, u := Prepending(p, s), s[..k];
    var x := u + s;
    forall j: nat | j < k ensures !At(x, j, s) {
      NoEarlierOccurrence(s, k, j);
    }
    SubstituteSkips(rule, x, 0, k);
    assert x[..k] == u && x[0..k] == u && x[k..] == s;
    AtBegins(x, k, s);
    Unfolds(p, s, x, k);
    Unfolds(p, s, x, |x|);
    var y := u + (p + s);
    assert u + (p + s + []) == y;
    assert Rewritten(rule, x) == y;
    assert s == u + s[k..] && y[0..] == y;
    AtBegins(y, 0, s);
    assert !EndsWith([], p) by { assert EndsWith(u, []); }
    InsertionChanges(rule, y, 0);
  }

  /** The two conditions are exactly what idempotence takes. */
  lemma IdempotentExactlyWhen(p: Text, s: Text)
    requires s != []
    ensures Idempotent(Prepending(p, s)) <==> OnlyAtEnd(p, s) && NeverCompleted(p, s)
  {
    hide *;
    if OnlyAtEnd(p, s) && NeverCompleted(p, s) {
      IdempotentWhen(p, s);
    } else if !OnlyAtEnd(p, s) {
      var o := SourceInside(p, s);
      NotIdempotentWhenSourceInside(p, s, o);
    } else {
      var k := BeginningCompleted(p, s);
      NotIdempotentWhenCompleted(p, s, k);
    }
  }

  lemma IdempotentWhen(p: Text, s: Text)
    requires s != [] && OnlyAtEnd(p, s) && NeverCompleted(p, s)
    ensures Idempotent(Prepending(p, s))
  {
    hide OnlyAtEnd, NeverCompleted, Substitute;
    var rule := Prepending(p, s);
    forall text: Text
      ensures Rewritten(rule, Rewritten(rule, text)) == Rewritten(rule, text)
    {
      SecondPassFrom(p, s, text, 0, [], []);
      assert [] + Rewritten(rule, text) == Rewritten(rule, text);
    }
  }

  lemma SourceInside(p: Text, s: Text) returns (o: nat)
    requires !OnlyAtEnd(p, s)
    ensures o < |p| && At(p + s, o, s)
  {
    o :| 0 <= o < |p| && At(p + s, o, s);
  }

  lemma BeginningCompleted(p: Text, s: Text) returns (k: nat)
    requires !NeverCompleted(p, s)
    ensures 0 < k < |s| && s[k..] <= p + s && !EndsWith(s[..k], p) && !(s[k..] <= s)
  {
    k :| 0 < k < |s| && s[k..] <= p + s && !EndsWith(s[..k], p) && !(s[k..] <= s);
  }

  // The static root of the Console V3 profile.

  const STATIC_ROOT: Text := Ascii("/extensions-static/")

  lemma StaticRootSlashes()
    ensures STATIC_ROOT[0] == SLASH && STATIC_ROOT[|STATIC_ROOT| - 1] == SLASH && |STATIC_ROOT| == 19
    ensures forall k :: 0 < k < |STATIC_ROOT| - 1 ==> STATIC_ROOT[k] != SLASH
  {
    var s := "/extensions-static/";
    assert |s| == 19;
    assert AsciiByte('/') == SLASH;
    assert forall k :: 0 < k < 18 ==> s[k] in {'e', 'x', 't', 'n', 's', 'i', 'o', '-', 'a', 'c'};
    assert forall c :: c in {'e', 'x', 't', 'n', 's', 'i', 'o', '-', 'a', 'c'} ==> AsciiByte(c) != SLASH;
  }

  /**
   * The static root is rewritten idempotently exactly for base paths that do not hold
   * `/extensions-static` as whole segments: it must not occur in the base path closed by a slash.
   */
  lemma StaticRootIsIdempotentExactlyWhen(base: Text)
    requires base == [] || base[0] == SLASH
    ensures Idempotent(Prepending(base, STATIC_ROOT)) <==> !Occurs(STATIC_ROOT, base + [SLASH])
  {
    hide At, Idempotent;
    var s := STATIC_ROOT;
    IdempotentExactlyWhen(base, s);
    StaticRootIsNeverCompleted(base);
    forall o: nat | o < |base|
      ensures At(base + s, o, s) <==> At(base + [SLASH], o, s)
    {
      StaticRootInside(base, o);
    }
    AtFitsOnlyBefore(base);
  }

  lemma StaticRootIsNeverCompleted(base: Text)
    requires base == [] || base[0] == SLASH
    ensures NeverCompleted(base, STATIC_ROOT)
  {
    var s := STATIC_ROOT;
    StaticRootSlashes();
    forall k | 0 < k < |s| && s[k..] <= base + s
      ensures s[k..] <= s
    {
      assert s[k] == s[k..][0] == (base + s)[0] == SLASH;
      assert s[k..] == [SLASH] == s[..1];
    }
  }

  lemma StaticRootInside(base: Text, o: nat)
    requires o < |base|
    ensures At(base + STATIC_ROOT, o, STATIC_ROOT) <==> At(base + [SLASH], o, STATIC_ROOT)
  {
    var s := STATIC_ROOT;
    StaticRootSlashes();
    var whole, closed := base + s, base + [SLASH];
    if o + |s| <= |closed| {
      assert whole == closed + s[1..];
      AtIsStable(closed, s[1..], o, s);
    } else if At(whole, o, s) {
      assert s[|base| - o] == whole[o..o + |s|][|base| - o] == whole[|base|] == s[0];
    }
  }

  lemma AtFitsOnlyBefore(base: Text)
    ensures forall o: nat :: At(base + [SLASH], o, STATIC_ROOT) ==> o < |base|
  {
    StaticRootSlashes();
  }
}
