/** The two stages with which a console response begins: exactly when a second round of both changes nothing. */
module StaticPrefixes {
  import opened Bytes
  import opened LiteralSpec
  import opened PrependIdempotence

  const STATIC_NAME: Text := Ascii("extensions-static")
  const STATIC_BASE: Text := Ascii("/extensions-static")
  const DIST: Text := Ascii("/dist/v3dist/")

  /** What the first stage searches for: the distribution of one extension, below the static root. */
  function ConsoleSource(name: Text): Text {
    STATIC_ROOT + name + DIST
  }

  /** The first stage and then the second. */
  function Prefixed(base: Text, name: Text, text: Text): Text {
    RootPrefixed(base, SourcePrefixed(base, name, text))
  }

  function SourcePrefixed(base: Text, name: Text, text: Text): Text {
    StaticRootSlashes();
    Rewritten(Prepending(base, ConsoleSource(name)), text)
  }

  function RootPrefixed(base: Text, text: Text): Text {
    StaticRootSlashes();
    Rewritten(Prepending(base, STATIC_ROOT), text)
  }

  /**
   * The base path does not hold the static root as whole segments, and does not complete a source
   * of which only the beginning was there.
   */
  predicate KeepsStaticRootApart(base: Text, name: Text) {
    !Occurs(STATIC_ROOT, base + [SLASH]) && (name == STATIC_NAME || NeverCompleted(base, ConsoleSource(name)))
  }

  // The bytes of the two literals.

  lemma RootBytes()
    ensures |STATIC_ROOT| == 19 && |STATIC_BASE| == 18 && |STATIC_NAME| == 17 && |DIST| == 13
    ensures STATIC_ROOT == STATIC_BASE + [SLASH] == [SLASH] + STATIC_NAME + [SLASH]
    ensures forall k :: 0 <= k < 19 ==> (STATIC_ROOT[k] == SLASH <==> k == 0 || k == 18)
    ensures STATIC_ROOT[1] == AsciiByte('e') && STATIC_ROOT[17] == AsciiByte('c')
  {
    StaticRootSlashes();
    var s := "/extensions-static/";
    assert s == "/extensions-static" + "/" == "/" + "extensions-static" + "/";
    assert AsciiByte('/') == SLASH;
  }

  lemma DistBytes()
    ensures |DIST| == 13 && DIST[1] == AsciiByte('d') && DIST[6] == AsciiByte('v') && DIST[11] == AsciiByte('t')
    ensures forall k :: 0 <= k < 13 ==> (DIST[k] == SLASH <==> k == 0 || k == 5 || k == 12)
    ensures AsciiByte('d') != AsciiByte('e') && AsciiByte('v') != AsciiByte('e') && AsciiByte('t') != AsciiByte('c')
  {
    var s := "/dist/v3dist/";
    assert AsciiByte('/') == SLASH;
    forall k | 0 <= k < 13 ensures DIST[k] == SLASH <==> k == 0 || k == 5 || k == 12 {
      AsciiByteIsSlash(s[k]);
    }
  }

  /** Of the five slashes of a source, those that are neither first nor last; `n` is the length of the name. */
  predicate IsInnerSlash(n: nat, d: nat) {
    d == 18 || d == 19 + n || d == 24 + n
  }

  /** Where the source has slashes, and which bytes tell its ends from the static root. */
  lemma SourceBytes(name: Text)
    requires SLASH !in name
    ensures var s, n := ConsoleSource(name), |name|;
            && |s| == 32 + n && s[..19] == STATIC_ROOT && |STATIC_ROOT| == 19
            && (forall d :: 0 <= d < |s| ==> (s[d] == SLASH <==> d == 0 || IsInnerSlash(n, d) || d == 31 + n))
            && (forall d :: 19 <= d < 19 + n ==> s[d] == name[d - 19])
            && s[20 + n] != STATIC_ROOT[1] && s[25 + n] != STATIC_ROOT[1] && s[30 + n] != STATIC_ROOT[17]
  {
    RootBytes();
    DistBytes();
    SourceShape(name);
    hide ConsoleSource, STATIC_ROOT, STATIC_BASE, DIST, STATIC_NAME, Ascii, AsciiByte;
    var s, n := ConsoleSource(name), |name|;
    forall d | 0 <= d < |s| ensures s[d] == SLASH <==> d == 0 || IsInnerSlash(n, d) || d == 31 + n {
      if d < 19 {
        assert s[d] == STATIC_ROOT[d];
      } else if d < 19 + n {
        assert s[d] == name[d - 19];
      } else {
        assert s[d] == DIST[d - 19 - n];
      }
    }
  }

  lemma SourceShape(name: Text)
    ensures ConsoleSource(name) == STATIC_ROOT + name + DIST
  {
  }

  lemma SourceLength(name: Text)
    ensures |ConsoleSource(name)| == 32 + |name| && |Shadowed(name)| == 50 + |name| && |STATIC_ROOT| == 19
    ensures STATIC_ROOT[..1] <= ConsoleSource(name)
  {
    RootBytes();
    DistBytes();
    hide STATIC_ROOT, STATIC_BASE, DIST;
  }

  /** An end of the source that begins with a slash is told from the static root by byte `c`. */
  lemma EndDiffers(name: Text, d: nat) returns (c: nat)
    requires SLASH !in name && IsInnerSlash(|name|, d) && (d == 18 ==> name != STATIC_NAME)
    ensures c < |STATIC_ROOT| && d + c < |ConsoleSource(name)| && ConsoleSource(name)[d + c] != STATIC_ROOT[c]
  {
    SourceBytes(name);
    RootBytes();
    hide *;
    var s, n := ConsoleSource(name), |name|;
    if d != 18 {
      c := 1;
    } else if n < 17 {
      c := n + 1;
    } else if n > 17 {
      c := 18;
      assert s[36] == name[17];
    } else {
      var i :| 0 <= i < 17 && name[i] != STATIC_NAME[i];
      c := i + 1;
      assert s[18 + c] == name[i] && STATIC_ROOT[c] == STATIC_NAME[i];
    }
  }

  /** Where the static root can begin inside a source: at its last slash, and in one source at the second. */
  lemma RootInsideSource(name: Text, text: Text, m: nat, j: nat)
    requires SLASH !in name && At(text, m, ConsoleSource(name)) && m < j < m + |ConsoleSource(name)|
    requires At(text, j, STATIC_ROOT)
    ensures j == m + 31 + |name| || (j == m + 18 && name == STATIC_NAME)
  {
    hide At, ConsoleSource, STATIC_ROOT, STATIC_NAME;
    RootBeginsWithSlash(text, j);
    SlashInsideSource(name, text, m, j);
    if IsInnerSlash(|name|, j - m) && (j - m == 18 ==> name != STATIC_NAME) {
      InnerEndIsNoRoot(name, text, m, j - m);
    }
  }

  lemma RootBeginsWithSlash(text: Text, j: nat)
    requires At(text, j, STATIC_ROOT)
    ensures j < |text| && text[j] == SLASH
  {
    RootBytes();
    hide *;
    AtHasByte(text, j, STATIC_ROOT, j);
  }

  lemma SlashInsideSource(name: Text, text: Text, m: nat, j: nat)
    requires SLASH !in name && At(text, m, ConsoleSource(name)) && m < j < m + |ConsoleSource(name)|
    requires j < |text| && text[j] == SLASH
    ensures IsInnerSlash(|name|, j - m) || j == m + 31 + |name|
  {
    SourceBytes(name);
    hide *;
    AtHasByte(text, m, ConsoleSource(name), j);
  }

  lemma InnerEndIsNoRoot(name: Text, text: Text, m: nat, d: nat)
    requires SLASH !in name && At(text, m, ConsoleSource(name))
    requires IsInnerSlash(|name|, d) && (d == 18 ==> name != STATIC_NAME)
    ensures !At(text, m + d, STATIC_ROOT)
  {
    hide *;
    var c := EndDiffers(name, d);
    AtHasByte(text, m, ConsoleSource(name), m + d + c);
    if At(text, m + d, STATIC_ROOT) {
      AtHasByte(text, m + d, STATIC_ROOT, m + d + c);
    }
  }

  lemma RootBeginsSource(name: Text, text: Text, j: nat)
    requires SLASH !in name && At(text, j, ConsoleSource(name))
    ensures At(text, j, STATIC_ROOT)
  {
    SourceBytes(name);
    hide ConsoleSource, STATIC_ROOT;
    var s := ConsoleSource(name);
    assert text[j..j + |s|][..19] == text[j..j + 19];
  }

  /** Static roots overlap in one byte. */
  lemma RootsOverlap(text: Text, m: nat, j: nat)
    requires At(text, m, STATIC_ROOT) && At(text, j, STATIC_ROOT) && m < j < m + |STATIC_ROOT|
    ensures j == m + 18 && j <= |text| && EndsWith(text[..j], STATIC_BASE)
  {
    RootBytes();
    hide STATIC_ROOT, STATIC_BASE;
    AtHasByte(text, m, STATIC_ROOT, j);
    AtHasByte(text, j, STATIC_ROOT, j);
    assert text[m..m + 19][..18] == text[..j][j - 18..];
  }

  // A source right behind the static root has no base path before it.

  lemma RootNotInside(base: Text)
    requires base == [] || base[0] == SLASH
    ensures OnlyAtEnd(base, STATIC_ROOT) <==> !Occurs(STATIC_ROOT, base + [SLASH])
  {
    StaticRootIsIdempotentExactlyWhen(base);
    StaticRootIsNeverCompleted(base);
    StaticRootSlashes();
    hide *;
    IdempotentExactlyWhen(base, STATIC_ROOT);
  }

  lemma ShadowedIsNotPrefixed(base: Text, before: Text)
    requires base != [] && base[0] == SLASH && OnlyAtEnd(base, STATIC_ROOT)
    ensures EndsWith(before, STATIC_BASE) ==> !EndsWith(before, base)
  {
    RootBytes();
    hide STATIC_ROOT, STATIC_BASE;
    var n := |before|;
    if EndsWith(before, STATIC_BASE) && EndsWith(before, base) {
      if |base| < 18 {
        var k := 18 - |base|;
        assert before[n - |base|..][0] == before[n - |base|] == before[n - 18..][k] == STATIC_BASE[k];
        assert STATIC_ROOT[k] == STATIC_BASE[k];
      } else {
        var o := |base| - 18;
        assert base[o..] == before[n - |base|..][o..] == before[n - 18..] == STATIC_BASE;
        assert (base + STATIC_ROOT)[o..o + 19] == base[o..] + STATIC_ROOT[..1] == STATIC_ROOT;
        NotInside(base, STATIC_ROOT, o);
      }
    }
  }

  /** The source behind all of the static root but its last slash, with which it begins. */
  function Shadowed(name: Text): Text {
    STATIC_BASE + ConsoleSource(name)
  }

  lemma ShadowedBytes(name: Text)
    requires SLASH !in name
    ensures var s, q, n := ConsoleSource(name), Shadowed(name), |name|;
            && |s| == 32 + n && |q| == 50 + n && |STATIC_ROOT| == 19 && |STATIC_BASE| == 18
            && q[..18] == STATIC_BASE && q[18..] == s && At(q, 18, s)
            && q[..19] == STATIC_ROOT && q[..1] == STATIC_ROOT[..1] == [SLASH] && q[49 + n..] == [SLASH]
  {
    SourceBytes(name);
    RootBytes();
    hide ConsoleSource, STATIC_ROOT, STATIC_BASE, DIST, STATIC_NAME, Ascii, AsciiByte, IsInnerSlash;
    var s, q, n := ConsoleSource(name), Shadowed(name), |name|;
    assert q[18..18 + |s|] == s == q[18..];
    assert s[..1] == [SLASH] == STATIC_ROOT[..1];
    assert q[49 + n] == s[31 + n];
  }

  lemma ShadowedBegins(name: Text)
    requires SLASH !in name
    ensures 19 <= |Shadowed(name)| && Shadowed(name)[..19] == STATIC_ROOT && Shadowed(name)[..1] == [SLASH]
    ensures |STATIC_ROOT| == 19 && STATIC_ROOT[18..] == [SLASH]
  {
    ShadowedBytes(name);
    RootBytes();
    hide *;
    assert STATIC_ROOT[18..] == [STATIC_ROOT[18]];
  }

  lemma ShadowedSlashes(name: Text, k: nat)
    requires SLASH !in name && 0 < k < |Shadowed(name)| && Shadowed(name)[k] == SLASH
    ensures k == 18 || (k > 18 && IsInnerSlash(|name|, k - 18)) || k == 49 + |name|
  {
    ShadowedBytes(name);
    RootBytes();
    hide *;
    var q := Shadowed(name);
    if k < 18 {
      assert q[k] == STATIC_BASE[k] == STATIC_ROOT[k];
    } else if k > 18 {
      SlashInsideSource(name, q, 18, k);
    }
  }

  lemma InnerEndDoesNotBegin(name: Text, d: nat)
    requires SLASH !in name && IsInnerSlash(|name|, d) && (d == 18 ==> name != STATIC_NAME)
    ensures d < |ConsoleSource(name)| && !(ConsoleSource(name)[d..] <= ConsoleSource(name))
  {
    SourceBytes(name);
    hide ConsoleSource, STATIC_ROOT, STATIC_NAME;
    var s := ConsoleSource(name);
    var c := EndDiffers(name, d);
    assert s[c] == STATIC_ROOT[c];
    if s[d..] <= s {
      assert s[d..][c] == s[c];
    }
  }

  /** A base path that does not hold the static root, with an extension that is not named like it. */
  predicate Ordinary(base: Text, name: Text) {
    && base != [] && base[0] == SLASH && SLASH !in name && name != STATIC_NAME
    && OnlyAtEnd(base, STATIC_ROOT)
  }

  lemma SourceIsNotBegun(base: Text, name: Text, rest: Text)
    requires base != [] && SLASH !in name && OnlyAtEnd(base, STATIC_ROOT)
    ensures !(ConsoleSource(name) <= base + STATIC_ROOT + rest)
  {
    SourceBytes(name);
    hide ConsoleSource, STATIC_ROOT, OnlyAtEnd;
    var s, r := ConsoleSource(name), STATIC_ROOT;
    if s <= base + r + rest {
      NotInside(base, r, 0);
      assert s[..19] == (base + r + rest)[..19] == (base + r)[..19];
      assert (base + r)[0..19] == (base + r)[..19];
    }
  }

  /** What the second stage writes completes a source only where the base path is already there. */
  lemma CompletedIsPrefixed(base: Text, name: Text, rest: Text, d: nat)
    requires Ordinary(base, name) && NeverCompleted(base, ConsoleSource(name)) && IsInnerSlash(|name|, d)
    requires d <= |ConsoleSource(name)| && ConsoleSource(name)[d..] <= base + STATIC_ROOT + rest
    ensures EndsWith(ConsoleSource(name)[..d], base)
  {
    hide *;
    var s, r := ConsoleSource(name), STATIC_ROOT;
    InnerEnd(base, name, d);
    InnerEndDoesNotBegin(name, d);
    PrefixCases(s[d..], base + r, rest);
    if s[d..] <= base + r {
      EndOfBaseAndRoot(base, name, s[d..]);
      CompletedEnd(base, s, d);
    } else {
      RootBehindBase(base, name, d);
    }
  }

  lemma InnerEnd(base: Text, name: Text, d: nat)
    requires Ordinary(base, name) && IsInnerSlash(|name|, d)
    ensures SLASH !in name && (d == 18 ==> name != STATIC_NAME) && 17 < d < 25 + |name| < |ConsoleSource(name)|
  {
    SourceBytes(name);
    hide ConsoleSource, STATIC_ROOT, STATIC_NAME, OnlyAtEnd;
  }

  lemma EndOfBaseAndRoot(base: Text, name: Text, end: Text)
    requires end <= base + STATIC_ROOT
    ensures end <= base + ConsoleSource(name)
  {
    SourceShape(name);
    hide *;
    Reassociate(base, STATIC_ROOT, name + DIST);
    Reassociate(STATIC_ROOT, name, DIST);
    PrefixWithin(end, base + STATIC_ROOT, name + DIST);
  }

  lemma CompletedEnd(p: Text, s: Text, k: nat)
    requires NeverCompleted(p, s) && 0 < k < |s| && s[k..] <= p + s && !(s[k..] <= s)
    ensures EndsWith(s[..k], p)
  {
    hide EndsWith;
  }

  lemma RootBehindBase(base: Text, name: Text, d: nat)
    requires Ordinary(base, name) && IsInnerSlash(|name|, d) && d <= |ConsoleSource(name)|
    ensures !(base + STATIC_ROOT <= ConsoleSource(name)[d..])
  {
    hide *;
    var s, r := ConsoleSource(name), STATIC_ROOT;
    InnerEnd(base, name, d);
    SourceBytes(name);
    if base + r <= s[d..] {
      BehindFront(s, d, base, r);
      WholeIsAt(s);
      AtIsWithin(s, d + |base|, r);
      RootInsideSource(name, s, 0, d + |base|);
    }
  }

  lemma ShadowAtPrefixed(base: Text, name: Text, before: Text, rest: Text, k: nat)
    requires Ordinary(base, name) && 0 < k < |Shadowed(name)| && EndsWith(before, Shadowed(name)[..k])
    requires EndsWith(before, base) && Shadowed(name)[k..] <= STATIC_ROOT + rest
    ensures Shadowed(name)[k..] <= STATIC_ROOT
  {
    ShadowedBytes(name);
    ShadowedIsNotPrefixed(base, before);
    var q, r := Shadowed(name), STATIC_ROOT;
    hide At, OnlyAtEnd, EndsWith, ConsoleSource, Shadowed, STATIC_ROOT, STATIC_NAME, STATIC_BASE;
    PrefixCases(q[k..], r, rest);
    if r <= q[k..] {
      AtBegins(q, k, r);
      AtIsWithin(q, k, r);
      RootBeginsWithSlash(q, k);
      ShadowedSlashes(name, k);
      if k > 18 {
        RootInsideSource(name, q, 18, k);
      }
    }
  }

  lemma ShadowAtInsertion(base: Text, name: Text, before: Text, rest: Text, k: nat)
    requires Ordinary(base, name) && NeverCompleted(base, ConsoleSource(name))
    requires 0 < k < |Shadowed(name)| && EndsWith(before, Shadowed(name)[..k])
    requires !EndsWith(before, base) && Shadowed(name)[k..] <= base + STATIC_ROOT + rest
    ensures Shadowed(name)[k..] <= STATIC_ROOT
  {
    ShadowedBytes(name);
    SourceIsNotBegun(base, name, rest);
    var q, s, r := Shadowed(name), ConsoleSource(name), STATIC_ROOT;
    hide At, OnlyAtEnd, EndsWith, NeverCompleted, ConsoleSource, Shadowed, STATIC_ROOT, STATIC_NAME, STATIC_BASE;
    assert q[k] == q[k..][0] == (base + r + rest)[0] == SLASH;
    ShadowedSlashes(name, k);
    if k == 49 + |name| {
      assert r[..1] <= r;
    } else if k > 18 {
      var d := k - 18;
      assert q[k..] == s[d..];
      CompletedIsPrefixed(base, name, rest, d);
      BehindShadow(name, base, d);
      EndsWithEnd(before, q[..k], base);
    }
  }

  lemma BehindShadow(name: Text, base: Text, d: nat)
    requires d <= |ConsoleSource(name)| && EndsWith(ConsoleSource(name)[..d], base)
    ensures |STATIC_BASE| + d <= |Shadowed(name)| && EndsWith(Shadowed(name)[..|STATIC_BASE| + d], base)
  {
    hide ConsoleSource, STATIC_BASE;
    assert Shadowed(name)[..|STATIC_BASE| + d] == STATIC_BASE + ConsoleSource(name)[..d];
  }

  lemma ShadowAtMatch(base: Text, name: Text, before: Text, rest: Text, k: nat)
    requires Ordinary(base, name) && NeverCompleted(base, ConsoleSource(name))
    requires 0 < k <= |Shadowed(name)| && EndsWith(before, Shadowed(name)[..k])
    requires Shadowed(name)[k..] <= (if EndsWith(before, base) then STATIC_ROOT else base + STATIC_ROOT) + rest
    ensures Shadowed(name)[k..] <= STATIC_ROOT
  {
    hide *;
    if k < |Shadowed(name)| {
      if EndsWith(before, base) {
        ShadowAtPrefixed(base, name, before, rest, k);
      } else {
        ShadowAtInsertion(base, name, before, rest, k);
      }
    }
  }

  /** The end of a shadowed source that begins in copied bytes is there in the original text, too. */
  lemma {:induction false} ShadowedWasThere(base: Text, name: Text, text: Text, i: nat, k: nat)
    requires Ordinary(base, name) && NeverCompleted(base, ConsoleSource(name)) && STATIC_ROOT != []
    requires 0 < k <= |Shadowed(name)| && i <= |text| && EndsWith(text[..i], Shadowed(name)[..k])
    requires Shadowed(name)[k..] <= Substitute(Prepending(base, STATIC_ROOT), text, i)
    ensures Shadowed(name)[k..] <= text[i..]
    decreases |text| - i
  {
    hide *;
    var rule, q, r := Prepending(base, STATIC_ROOT), Shadowed(name), STATIC_ROOT;
    Unfolds(base, r, text, i);
    if k == |q| || i == |text| {
      assert q[k..] == [];
    } else if At(text, i, r) {
      AtSplits(text, i, r);
      ShadowAtMatch(base, name, text[..i], Substitute(rule, text, i + |r|), k);
      PrefixWithin(q[k..], r, text[i + |r|..]);
    } else {
      var v, rest := q[k..], Substitute(rule, text, i + 1);
      PrefixOfCons(v, text[i], rest);
      EndsWithMore(text[..i], q[..k], text[i]);
      SliceFrom(text, i);
      SliceFrom(q, k);
      assert v[1..] == q[k + 1..];
      ShadowedWasThere(base, name, text, i + 1, k + 1);
      PrefixOfCons(v, text[i], text[i + 1..]);
    }
  }

  /** Where all but the last bytes of a shadowed source were copied, it is there in the original text. */
  lemma ShadowFrom(base: Text, name: Text, text: Text, i: nat, k: nat)
    requires Ordinary(base, name) && NeverCompleted(base, ConsoleSource(name)) && STATIC_ROOT != []
    requires 0 < k <= |Shadowed(name)| && i <= |text| && EndsWith(text[..i], Shadowed(name)[..k])
    requires Shadowed(name)[k..] <= Substitute(Prepending(base, STATIC_ROOT), text, i)
    ensures Occurs(Shadowed(name), text)
  {
    hide *;
    ShadowedWasThere(base, name, text, i, k);
    OccursAcross(text, i, Shadowed(name), k);
  }

  lemma RootBeginsShadowed(name: Text, text: Text, o: nat)
    requires SLASH !in name && At(text, o, Shadowed(name))
    ensures At(text, o, STATIC_ROOT)
  {
    ShadowedBytes(name);
    hide At, Shadowed, STATIC_ROOT;
    var q := Shadowed(name);
    assert q == q[..19] + q[19..];
    AtConcat(text, o, q[..19], q[19..]);
  }

  /** An occurrence that begins in what is written for a match begins in its static root, with a copied slash. */
  lemma ShadowedInRendered(base: Text, name: Text, text: Text, i: nat, front: Text, o: nat)
    requires Ordinary(base, name) && NeverCompleted(base, ConsoleSource(name)) && STATIC_ROOT != []
    requires At(text, i, STATIC_ROOT) && i + |STATIC_ROOT| <= |text|
    requires front == STATIC_ROOT || front == base + STATIC_ROOT
    requires o < |front|
    requires At(front + Substitute(Prepending(base, STATIC_ROOT), text, i + |STATIC_ROOT|), o, Shadowed(name))
    ensures Occurs(Shadowed(name), text)
  {
    var r, q, e := STATIC_ROOT, Shadowed(name), i + |STATIC_ROOT|;
    var rest := Substitute(Prepending(base, r), text, e);
    OrdinaryName(base, name);
    hide *;
    SourceLength(name);
    ShadowedBegins(name);
    RootBeginsShadowed(name, front + rest, o);
    RootInRendered(base, rest, front, o);
    assert |q| > 19;
    RenderedTail(front, rest, o, q);
    EndsAfter(text, i, r);
    assert q[..|front| - o] == r[19 - (|front| - o)..];
    EndOfEnd(text[..e], r, |front| - o);
    ShadowFrom(base, name, text, e, |front| - o);
  }

  lemma OrdinaryName(base: Text, name: Text)
    requires Ordinary(base, name)
    ensures SLASH !in name && base != [] && base[0] == SLASH && OnlyAtEnd(base, STATIC_ROOT)
  {
  }

  /** In what is written for a match the static root begins at its own place, or at its last slash. */
  lemma RootInRendered(base: Text, rest: Text, front: Text, o: nat)
    requires OnlyAtEnd(base, STATIC_ROOT) && (front == STATIC_ROOT || front == base + STATIC_ROOT)
    requires o < |front| && At(front + rest, o, STATIC_ROOT)
    ensures |front| - o == |STATIC_ROOT| || |front| - o == 1
  {
    RootBytes();
    var r := STATIC_ROOT;
    hide OnlyAtEnd, At, STATIC_ROOT;
    var m := |front| - |r|;
    assert front[m..] == r;
    assert (front + rest)[m..m + |r|] == r;
    if o < m {
      AtIsStable(front, rest, o, r);
      NotInside(base, r, o);
    } else if m < o {
      RootAt(front + rest, m);
      RootsOverlap(front + rest, m, o);
    }
  }

  lemma RootAt(text: Text, m: nat)
    requires m + |STATIC_ROOT| <= |text| && text[m..m + |STATIC_ROOT|] == STATIC_ROOT
    ensures At(text, m, STATIC_ROOT)
  {
  }

  lemma RenderedTail(front: Text, rest: Text, o: nat, q: Text)
    requires o < |front| && At(front + rest, o, q) && |q| > |front| - o
    ensures q[|front| - o..] <= rest && q[..|front| - o] == front[o..]
  {
    var k := |front| - o;
    assert (front + rest)[o..o + |q|] == front[o..] + rest[..|q| - k];
    assert q[k..] == rest[..|q| - k];
  }

  /** An occurrence that begins with a copied byte is there in the original text. */
  lemma ShadowedInCopied(base: Text, name: Text, text: Text, i: nat)
    requires Ordinary(base, name) && NeverCompleted(base, ConsoleSource(name)) && STATIC_ROOT != [] && i < |text|
    requires At([text[i]] + Substitute(Prepending(base, STATIC_ROOT), text, i + 1), 0, Shadowed(name))
    ensures Occurs(Shadowed(name), text)
  {
    hide *;
    SourceLength(name);
    RenderedTail([text[i]], Substitute(Prepending(base, STATIC_ROOT), text, i + 1), 0, Shadowed(name));
    LastByte(text, i);
    assert [text[i]][0..] == [text[i]];
    ShadowFrom(base, name, text, i + 1, 1);
  }

  /** No shadowed source is made by the second stage. */
  lemma {:induction false} NoNewShadow(base: Text, name: Text, text: Text, i: nat)
    requires Ordinary(base, name) && NeverCompleted(base, ConsoleSource(name)) && STATIC_ROOT != [] && i <= |text|
    requires Shadowed(name) != []
    ensures Occurs(Shadowed(name), Substitute(Prepending(base, STATIC_ROOT), text, i)) ==> Occurs(Shadowed(name), text)
    decreases |text| - i
  {
    hide *;
    var r, q := STATIC_ROOT, Shadowed(name);
    var out := Substitute(Prepending(base, r), text, i);
    Unfolds(base, r, text, i);
    if Occurs(q, out) {
      var o := OccursSomewhere(q, out);
      AtIsWithin(out, o, q);
      if At(text, i, r) {
        var front := if EndsWith(text[..i], base) then r else base + r;
        NoNewShadow(base, name, text, i + |r|);
        if o < |front| {
          ShadowedInRendered(base, name, text, i, front, o);
        } else {
          OccursInRest(front, Substitute(Prepending(base, r), text, i + |r|), o, q);
        }
      } else {
        NoNewShadow(base, name, text, i + 1);
        if o == 0 {
          ShadowedInCopied(base, name, text, i);
        } else {
          OccursInRest([text[i]], Substitute(Prepending(base, r), text, i + 1), o, q);
        }
      }
    }
  }

  lemma LastByte(text: Text, i: nat)
    requires i < |text|
    ensures EndsWith(text[..i + 1], [text[i]])
  {
  }

  // The condition is enough.

  /** What has a base path before it, where a literal occurs in a text that its stage leaves alone. */
  lemma PrefixedOrOverlapped(p: Text, s: Text, text: Text, j: nat)
    requires s != [] && Rewritten(Prepending(p, s), text) == text && At(text, j, s)
    ensures j <= |text|
    ensures EndsWith(text[..j], p)
            || exists m: nat :: m < j < m + |s| && At(text, m, s) && EndsWith(text[..m], p)
  {
    hide At, EndsWith, Substitute;
    var rule := Prepending(p, s);
    SettledOrOverlapped(rule, text, 0, j);
    if !EndsWith(text[..j], p) {
      var m: nat :| m < j < m + |s| && At(text, m, s) && AlreadyRewritten(rule, text, m);
    }
  }

  lemma PrefixedIsKept(p: Text, s: Text, text: Text)
    requires s != [] && forall j: nat :: At(text, j, s) && j <= |text| ==> EndsWith(text[..j], p)
    ensures Rewritten(Prepending(p, s), text) == text
  {
    hide At, EndsWith, Substitute;
    SettledIsKept(Prepending(p, s), text, 0);
    assert text[0..] == text;
  }

  /** A static root in what the second stage leaves alone is prefixed, or stands behind another that is. */
  lemma RootIsPrefixedOrShadowed(base: Text, text: Text, j: nat)
    requires STATIC_ROOT != [] && Rewritten(Prepending(base, STATIC_ROOT), text) == text && At(text, j, STATIC_ROOT)
    ensures j <= |text|
    ensures EndsWith(text[..j], base) || (j >= 18 && EndsWith(text[..j - 18], base) && EndsWith(text[..j], STATIC_BASE))
  {
    hide *;
    PrefixedOrOverlapped(base, STATIC_ROOT, text, j);
    if !EndsWith(text[..j], base) {
      var m: nat :| m < j < m + |STATIC_ROOT| && At(text, m, STATIC_ROOT) && EndsWith(text[..m], base);
      RootsOverlap(text, m, j);
    }
  }

  /** A shadowed source is one that the first stage does not leave alone. */
  lemma NoShadowInPrefixed(base: Text, name: Text, text: Text)
    requires Ordinary(base, name) && ConsoleSource(name) != []
    requires Rewritten(Prepending(base, ConsoleSource(name)), text) == text
    ensures !Occurs(Shadowed(name), text)
  {
    OrdinaryName(base, name);
    ShadowedBytes(name);
    hide *;
    var s, q := ConsoleSource(name), Shadowed(name);
    if Occurs(q, text) {
      var o := OccursSomewhere(q, text);
      ShadowedParts(name, text, o);
      var j := o + 18;
      PrefixedOrOverlapped(base, s, text, j);
      ShadowedIsNotPrefixed(base, text[..j]);
      var m: nat :| m < j < m + |s| && At(text, m, s) && EndsWith(text[..m], base);
      SourcesDoNotOverlap(base, name, text, m, j);
    }
  }

  lemma ShadowedParts(name: Text, text: Text, o: nat)
    requires At(text, o, Shadowed(name))
    ensures At(text, o + 18, ConsoleSource(name)) && o + 18 <= |text| && EndsWith(text[..o + 18], STATIC_BASE)
  {
    RootBytes();
    hide At, STATIC_BASE, ConsoleSource;
    AtConcat(text, o, STATIC_BASE, ConsoleSource(name));
    EndsAfter(text, o, STATIC_BASE);
  }

  lemma SourcesDoNotOverlap(base: Text, name: Text, text: Text, m: nat, j: nat)
    requires Ordinary(base, name) && j <= |text| && EndsWith(text[..j], STATIC_BASE)
    requires At(text, m, ConsoleSource(name)) && m < j < m + |ConsoleSource(name)|
    ensures !At(text, j, ConsoleSource(name))
  {
    DifferentNames(base, name);
    SourceBytes(name);
    RootBytes();
    hide *;
    var s := ConsoleSource(name);
    if At(text, j, s) {
      RootBeginsSource(name, text, j);
      RootInsideSource(name, text, m, j);
      AtHasByte(text, m, s, j - 1);
      LastByteOfEnd(text[..j], STATIC_BASE);
      assert STATIC_BASE[17] == STATIC_ROOT[17];
    }
  }

  lemma DifferentNames(base: Text, name: Text)
    requires Ordinary(base, name)
    ensures SLASH !in name && name != STATIC_NAME
  {
  }

  /** After both stages every source has its base path. */
  lemma SourceIsPrefixed(base: Text, name: Text, y: Text, z: Text, j: nat)
    requires base != [] && base[0] == SLASH && SLASH !in name && OnlyAtEnd(base, STATIC_ROOT)
    requires STATIC_ROOT != [] && ConsoleSource(name) != []
    requires Rewritten(Prepending(base, STATIC_ROOT), z) == z && At(z, j, ConsoleSource(name)) && j <= |z|
    requires name == STATIC_NAME
             || (NeverCompleted(base, ConsoleSource(name)) && z == Rewritten(Prepending(base, STATIC_ROOT), y)
                 && Rewritten(Prepending(base, ConsoleSource(name)), y) == y)
    ensures EndsWith(z[..j], base)
  {
    RootBytes();
    OrdinaryUnless(base, name);
    hide *;
    RootBeginsSource(name, z, j);
    RootIsPrefixedOrShadowed(base, z, j);
    if name == STATIC_NAME {
      SecondRoot(z, j);
      ShadowedIsNotPrefixed(base, z[..j + 18]);
      RootIsPrefixedOrShadowed(base, z, j + 18);
    } else if !EndsWith(z[..j], base) {
      OccursShadowed(name, z, j);
      AsSubstitute(Prepending(base, STATIC_ROOT), y);
      ShadowedBytes(name);
      NoNewShadow(base, name, y, 0);
      NoShadowInPrefixed(base, name, y);
    }
  }

  lemma OrdinaryUnless(base: Text, name: Text)
    requires base != [] && base[0] == SLASH && SLASH !in name && OnlyAtEnd(base, STATIC_ROOT)
    ensures name == STATIC_NAME || Ordinary(base, name)
  {
  }

  lemma AsSubstitute(rule: Rule, text: Text)
    requires rule.Valid()
    ensures Rewritten(rule, text) == Substitute(rule, text, 0)
  {
  }

  /** The source of the extension that is named like the static root begins with two of them. */
  lemma SecondRoot(text: Text, j: nat)
    requires At(text, j, ConsoleSource(STATIC_NAME))
    ensures At(text, j + 18, STATIC_ROOT) && j + 18 <= |text| && EndsWith(text[..j + 18], STATIC_BASE)
  {
    RootBytes();
    DistBytes();
    hide At, STATIC_BASE, STATIC_ROOT, STATIC_NAME, DIST;
    var s := ConsoleSource(STATIC_NAME);
    assert DIST == [SLASH] + DIST[1..];
    assert s == STATIC_BASE + STATIC_ROOT + DIST[1..];
    AtConcat(text, j, STATIC_BASE + STATIC_ROOT, DIST[1..]);
    AtConcat(text, j, STATIC_BASE, STATIC_ROOT);
    EndsAfter(text, j, STATIC_BASE);
  }

  lemma OccursShadowed(name: Text, text: Text, j: nat)
    requires At(text, j, ConsoleSource(name)) && j <= |text| && EndsWith(text[..j], STATIC_BASE)
    ensures Occurs(Shadowed(name), text)
  {
    hide At, STATIC_BASE, ConsoleSource, Occurs;
    var a, s := STATIC_BASE, ConsoleSource(name);
    AtBegins(text, j, s);
    assert Shadowed(name)[..|a|] == a && Shadowed(name)[|a|..] == s;
    OccursAcross(text, j, Shadowed(name), |a|);
  }

  /** After both stages the second has nothing to do, and every source has its base path. */
  lemma AfterBoth(base: Text, name: Text, text: Text)
    requires SLASH !in name && base != [] && base[0] == SLASH && KeepsStaticRootApart(base, name)
    ensures STATIC_ROOT != [] && OnlyAtEnd(base, STATIC_ROOT)
    ensures var z := Prefixed(base, name, text);
            && Rewritten(Prepending(base, STATIC_ROOT), z) == z
            && forall j: nat :: At(z, j, ConsoleSource(name)) && j <= |z| ==> EndsWith(z[..j], base)
  {
    RootBytes();
    RootNotInside(base);
    Apart(base, name);
    hide *;
    var s, r := ConsoleSource(name), STATIC_ROOT;
    var y := SourcePrefixed(base, name, text);
    Rounds(base, name, text);
    Rounds(base, name, y);
    StaticRootIsNeverCompleted(base);
    IdempotentFor(base, r, y);
    if name != STATIC_NAME {
      SourceOnlyAtEnd(base, name);
      IdempotentFor(base, s, text);
    }
    var z := Prefixed(base, name, text);
    forall j: nat | At(z, j, s) && j <= |z| ensures EndsWith(z[..j], base) {
      SourceIsPrefixed(base, name, y, z, j);
    }
  }

  lemma SecondRoundKeeps(base: Text, name: Text, text: Text)
    requires SLASH !in name && (base == [] || base[0] == SLASH) && KeepsStaticRootApart(base, name)
    ensures Prefixed(base, name, Prefixed(base, name, text)) == Prefixed(base, name, text)
  {
    hide *;
    var z := Prefixed(base, name, text);
    Rounds(base, name, text);
    Rounds(base, name, z);
    if base == [] {
      NothingInserted(ConsoleSource(name), z);
      NothingInserted(STATIC_ROOT, z);
    } else {
      AfterBoth(base, name, text);
      PrefixedIsKept(base, ConsoleSource(name), z);
    }
  }

  lemma Apart(base: Text, name: Text)
    requires KeepsStaticRootApart(base, name)
    ensures !Occurs(STATIC_ROOT, base + [SLASH])
    ensures name == STATIC_NAME || NeverCompleted(base, ConsoleSource(name))
  {
  }

  lemma Rounds(base: Text, name: Text, text: Text)
    ensures STATIC_ROOT != [] && ConsoleSource(name) != []
    ensures SourcePrefixed(base, name, text) == Rewritten(Prepending(base, ConsoleSource(name)), text)
    ensures RootPrefixed(base, text) == Rewritten(Prepending(base, STATIC_ROOT), text)
    ensures Prefixed(base, name, text) == RootPrefixed(base, SourcePrefixed(base, name, text))
  {
    StaticRootSlashes();
    hide STATIC_ROOT, Rewritten;
  }

  lemma NothingInserted(s: Text, text: Text)
    requires s != []
    ensures Rewritten(Prepending([], s), text) == text
  {
    hide At, Substitute;
    PrefixedIsKept([], s, text);
  }

  lemma IdempotentFor(p: Text, s: Text, text: Text)
    requires s != [] && OnlyAtEnd(p, s) && NeverCompleted(p, s)
    ensures var rule := Prepending(p, s); Rewritten(rule, Rewritten(rule, text)) == Rewritten(rule, text)
  {
    hide OnlyAtEnd, NeverCompleted, Substitute;
    IdempotentWhen(p, s);
  }

  lemma SourceOnlyAtEnd(base: Text, name: Text)
    requires SLASH !in name && OnlyAtEnd(base, STATIC_ROOT)
    ensures OnlyAtEnd(base, ConsoleSource(name))
  {
    SourceShape(name);
    hide At, ConsoleSource, STATIC_ROOT, DIST;
    var s, r := ConsoleSource(name), STATIC_ROOT;
    forall o | 0 <= o < |base| ensures !At(base + s, o, s) {
      if At(base + s, o, s) {
        RootBeginsSource(name, base + s, o);
        assert base + s == base + r + (name + DIST);
        AtIsStable(base + r, name + DIST, o, r);
        assert !At(base + r, o, r);
      }
    }
  }

  // The condition is needed.

  lemma {:induction false} SameLengthIsSame(rule: Rule, text: Text, i: nat)
    requires rule.Valid() && !rule.mode.Exact? && i <= |text| && |Substitute(rule, text, i)| <= |text| - i
    ensures Substitute(rule, text, i) == text[i..]
    decreases |text| - i
  {
    hide At, AlreadyRewritten, Substitute;
    SubstituteUnfolds(rule, text, i);
    if i == |text| {
    } else if At(text, i, rule.source) {
      var next := i + |rule.source|;
      InsertionGrows(rule, text, next);
      RenderedIsOneOfTwo(rule, text, i);
      if !AlreadyRewritten(rule, text, i) {
        UnsettledGrows(rule, text, i);
      }
      SettledIsSource(rule, text, i);
      SameLengthIsSame(rule, text, next);
      AtSplits(text, i, rule.source);
    } else {
      InsertionGrows(rule, text, i + 1);
      SameLengthIsSame(rule, text, i + 1);
      SliceFrom(text, i);
    }
  }

  lemma SettledIsSource(rule: Rule, text: Text, i: nat)
    requires i <= |text| && AlreadyRewritten(rule, text, i)
    ensures Rendered(rule, text, i) == rule.source
  {
  }

  /** A text that both stages together leave alone is left alone by each. */
  lemma EachKeeps(base: Text, name: Text, text: Text)
    requires Prefixed(base, name, text) == text
    ensures SourcePrefixed(base, name, text) == text && RootPrefixed(base, text) == text
  {
    Rounds(base, name, text);
    hide STATIC_ROOT, ConsoleSource, Substitute;
    var a, b := Prepending(base, ConsoleSource(name)), Prepending(base, STATIC_ROOT);
    var y := SourcePrefixed(base, name, text);
    InsertionGrows(a, text, 0);
    InsertionGrows(b, y, 0);
    SameLengthIsSame(a, text, 0);
    assert text[0..] == text;
  }

  lemma RootTwice(base: Text, name: Text)
    requires SLASH !in name && !OnlyAtEnd(base, STATIC_ROOT)
    ensures var once := Prefixed(base, name, STATIC_ROOT); Prefixed(base, name, once) != once
  {
    SourceLength(name);
    Rounds(base, name, STATIC_ROOT);
    hide *;
    var r := STATIC_ROOT;
    ShorterIsKept(base, ConsoleSource(name), r);
    var o := SourceInside(base, r);
    NotIdempotentWhenSourceInside(base, r, o);
    var once := Prefixed(base, name, r);
    Rounds(base, name, once);
    if Prefixed(base, name, once) == once {
      EachKeeps(base, name, once);
    }
  }

  lemma ShorterIsKept(p: Text, s: Text, text: Text)
    requires |text| < |s|
    ensures Rewritten(Prepending(p, s), text) == text
  {
    hide Substitute, EndsWith;
    forall j: nat ensures !At(text, j, s) {
    }
    PrefixedIsKept(p, s, text);
  }

  /** The source behind a shadowed beginning of itself. */
  function Begun(name: Text, k: nat): Text
    requires k <= |ConsoleSource(name)|
  {
    STATIC_BASE + ConsoleSource(name)[..k]
  }

  lemma BegunBytes(name: Text, k: nat, rest: Text)
    requires SLASH !in name && 18 <= k <= |ConsoleSource(name)|
    requires STATIC_ROOT[..1] <= rest
    ensures |Begun(name, k)| == 18 + k && (Begun(name, k) + rest)[18..] == ConsoleSource(name)[..k] + rest
    ensures At(Begun(name, k) + rest, 0, STATIC_ROOT) && At(Begun(name, k) + rest, 18, STATIC_ROOT)
    ensures forall j :: 0 < j < 18 ==> (Begun(name, k) + rest)[j] != SLASH
  {
    hide *;
    var u := ConsoleSource(name)[..k];
    BegunLength(name, k);
    BegunIs(name, k);
    SourceBeginsAgain(name, k, rest);
    Reassociate(STATIC_BASE, u, rest);
    BehindBase(u + rest);
    NoSlashInBase(u + rest);
  }

  lemma NoSlashInBase(rest: Text)
    ensures |STATIC_BASE| == 18 && forall j :: 0 < j < 18 ==> (STATIC_BASE + rest)[j] != SLASH
  {
    RootBytes();
    hide STATIC_ROOT, STATIC_BASE;
    forall j | 0 < j < 18 ensures (STATIC_BASE + rest)[j] != SLASH {
      assert STATIC_BASE[j] == STATIC_ROOT[j];
    }
  }

  lemma SourceBeginsAgain(name: Text, k: nat, rest: Text)
    requires SLASH !in name && 18 <= k <= |ConsoleSource(name)|
    requires STATIC_ROOT[..1] <= rest
    ensures STATIC_ROOT <= ConsoleSource(name)[..k] + rest
  {
    SourceBytes(name);
    RootBytes();
    hide *;
    var s, r := ConsoleSource(name), STATIC_ROOT;
    if k == 18 {
      assert s[..18] == s[..19][..18] == STATIC_BASE;
      assert rest[0] == r[..1][0];
      assert (s[..18] + rest)[..19] == STATIC_BASE + [SLASH];
    } else {
      assert s[..k][..19] == s[..19];
      assert (s[..k] + rest)[..19] == s[..k][..19];
    }
  }

  lemma BehindBase(rest: Text)
    requires STATIC_ROOT <= rest
    ensures At(STATIC_BASE + rest, 0, STATIC_ROOT) && At(STATIC_BASE + rest, 18, STATIC_ROOT)
    ensures (STATIC_BASE + rest)[18..] == rest
  {
    RootBytes();
    hide STATIC_ROOT, STATIC_BASE;
    var x := STATIC_BASE + rest;
    assert rest[0] == STATIC_ROOT[0];
    assert x[0..19] == STATIC_BASE + [SLASH];
    assert x[18..37] == rest[..19];
  }

  lemma NoSourceBefore(name: Text, k: nat, j: nat)
    requires SLASH !in name && name != STATIC_NAME && 18 <= k < |ConsoleSource(name)| && j < 18 + k
    requires !(ConsoleSource(name)[k..] <= ConsoleSource(name))
    ensures !At(Begun(name, k) + ConsoleSource(name), j, ConsoleSource(name))
  {
    hide *;
    SourceLength(name);
    var s := ConsoleSource(name);
    var x := Begun(name, k) + s;
    BegunBytes(name, k, s);
    if At(x, j, s) {
      RootBeginsSource(name, x, j);
      RootBeginsWithSlash(x, j);
      if j == 0 {
        RootInsideSource(name, x, 0, 18);
      } else if j >= 18 {
        AtShifts(x, 18, j - 18, s);
        NoEarlierOccurrence(s, k, j - 18);
      }
    }
  }

  lemma BegunIsNotPrefixed(base: Text, name: Text, k: nat)
    requires Ordinary(base, name) && 18 <= k <= |ConsoleSource(name)| && !EndsWith(ConsoleSource(name)[..k], base)
    ensures !EndsWith(Begun(name, k), base)
  {
    OrdinaryName(base, name);
    RootBytes();
    var w, r := Begun(name, k), STATIC_ROOT;
    assert r[..1] <= r;
    BegunBytes(name, k, r);
    hide At, OnlyAtEnd, ConsoleSource, STATIC_ROOT, STATIC_BASE;
    if EndsWith(w, base) {
      var a := |w| - |base|;
      assert w[a] == w[a..][0] == SLASH;
      if a >= 18 {
        assert ConsoleSource(name)[..k][a - 18..] == w[a..];
      } else if a > 0 {
        assert (w + r)[a] == w[a];
      } else {
        assert w == base;
        NotInside(base, r, 0);
      }
    }
  }

  /** What the first stage makes of a begun source with another behind it. */
  lemma BegunOnce(base: Text, name: Text, k: nat)
    requires Ordinary(base, name) && 18 <= k < |ConsoleSource(name)| && !EndsWith(ConsoleSource(name)[..k], base)
    requires !(ConsoleSource(name)[k..] <= ConsoleSource(name))
    ensures SourcePrefixed(base, name, Begun(name, k) + ConsoleSource(name))
            == Begun(name, k) + (base + ConsoleSource(name))
  {
    OrdinaryName(base, name);
    DifferentNames(base, name);
    hide *;
    var s, w := ConsoleSource(name), Begun(name, k);
    var x := w + s;
    BegunLength(name, k);
    Rounds(base, name, x);
    forall j: nat | j < |w| ensures !At(x, j, s) {
      NoSourceBefore(name, k, j);
    }
    BegunIsNotPrefixed(base, name, k);
    InsertedAtEnd(base, s, w);
  }

  lemma BegunLength(name: Text, k: nat)
    requires k <= |ConsoleSource(name)|
    ensures |Begun(name, k)| == 18 + k
  {
    RootBytes();
    hide ConsoleSource, STATIC_BASE;
  }

  lemma InsertedAtEnd(p: Text, s: Text, w: Text)
    requires s != [] && !EndsWith(w, p) && forall j: nat :: j < |w| ==> !At(w + s, j, s)
    ensures Rewritten(Prepending(p, s), w + s) == w + (p + s)
  {
    hide At, EndsWith, Substitute;
    var rule, x := Prepending(p, s), w + s;
    SubstituteSkips(rule, x, 0, |w|);
    assert x[0..|w|] == w == x[..|w|] && x[|w|..] == s;
    AtBegins(x, |w|, s);
    Unfolds(p, s, x, |w|);
    Unfolds(p, s, x, |x|);
    assert p + s + [] == p + s;
  }

  lemma RootNotInBase(base: Text, name: Text, o: nat)
    requires OnlyAtEnd(base, STATIC_ROOT) && o < |base|
    ensures !At(base + ConsoleSource(name), o, STATIC_ROOT)
  {
    SourceShape(name);
    hide At, OnlyAtEnd, ConsoleSource, STATIC_ROOT, DIST;
    var r := STATIC_ROOT;
    assert base + ConsoleSource(name) == base + r + (name + DIST);
    AtIsStable(base + r, name + DIST, o, r);
    NotInside(base, r, o);
  }

  /** Every other static root in it is prefixed. */
  lemma BegunRootIsPrefixed(base: Text, name: Text, k: nat, j: nat)
    requires Ordinary(base, name) && 18 <= k < |ConsoleSource(name)|
    requires ConsoleSource(name)[k..] <= base + ConsoleSource(name)
    requires j > 18 && At(Begun(name, k) + (base + ConsoleSource(name)), j, STATIC_ROOT)
    ensures var y := Begun(name, k) + (base + ConsoleSource(name)); j <= |y| && EndsWith(y[..j], base)
  {
    hide *;
    var s, w := ConsoleSource(name), Begun(name, k);
    var y := w + (base + s);
    BegunLength(name, k);
    AtIsWithin(y, j, STATIC_ROOT);
    if j < |w| {
      NoRootInBegun(base, name, k, j);
    } else {
      assert y[|w|..] == base + s;
      AtShifts(y, |w|, j - |w|, STATIC_ROOT);
      RootBehindBegun(base, name, j - |w|);
      assert y[..j] == w + base;
      EndsWithConcat(w, base);
    }
  }

  lemma NoRootInBegun(base: Text, name: Text, k: nat, j: nat)
    requires Ordinary(base, name) && 18 <= k < |ConsoleSource(name)|
    requires ConsoleSource(name)[k..] <= base + ConsoleSource(name)
    requires 18 < j < 18 + k
    ensures !At(Begun(name, k) + (base + ConsoleSource(name)), j, STATIC_ROOT)
  {
    DifferentNames(base, name);
    hide *;
    SourceLength(name);
    SourceInBegun(base, name, k);
    var y := Begun(name, k) + (base + ConsoleSource(name));
    if At(y, j, STATIC_ROOT) {
      RootInsideSource(name, y, 18, j);
    }
  }

  lemma RootBehindBegun(base: Text, name: Text, o: nat)
    requires Ordinary(base, name) && At(base + ConsoleSource(name), o, STATIC_ROOT)
    ensures o == |base|
  {
    OrdinaryName(base, name);
    DifferentNames(base, name);
    hide *;
    SourceLength(name);
    var s := ConsoleSource(name);
    AtIsWithin(base + s, o, STATIC_ROOT);
    if o < |base| {
      RootNotInBase(base, name, o);
    } else if o > |base| {
      SourceAtEnd([], base, s);
      assert [] + (base + s) == base + s && [] + base == base;
      RootInsideSource(name, base + s, |base|, o);
    }
  }

  lemma SourceAtEnd(w: Text, p: Text, s: Text)
    ensures At(w + (p + s), |w + p|, s)
  {
    assert w + (p + s) == w + p + s;
  }

  lemma SourceInBegun(base: Text, name: Text, k: nat)
    requires k <= |ConsoleSource(name)| && ConsoleSource(name)[k..] <= base + ConsoleSource(name)
    ensures At(Begun(name, k) + (base + ConsoleSource(name)), 18, ConsoleSource(name))
    ensures At(Begun(name, k) + (base + ConsoleSource(name)), 0, Shadowed(name))
  {
    hide *;
    RootBytes();
    var s, y := ConsoleSource(name), Begun(name, k) + (base + ConsoleSource(name));
    var rest := (base + s)[|s| - k..];
    BegunIs(name, k);
    SplitAndGoOn(s, k, base + s, rest);
    Reassociate(STATIC_BASE, s[..k], base + s);
    BetweenTwo(STATIC_BASE, s, rest);
    AtConcat(y, 0, STATIC_BASE, s);
    ShadowedIs(name);
  }

  lemma BegunIs(name: Text, k: nat)
    requires k <= |ConsoleSource(name)|
    ensures Begun(name, k) == STATIC_BASE + ConsoleSource(name)[..k]
  {
  }

  lemma ShadowedIs(name: Text)
    ensures Shadowed(name) == STATIC_BASE + ConsoleSource(name)
  {
  }

  lemma SplitAndGoOn(s: Text, k: nat, more: Text, rest: Text)
    requires k <= |s| && s[k..] <= more && rest == more[|s| - k..]
    ensures s[..k] + more == s + rest
  {
    assert more == s[k..] + rest;
    assert s == s[..k] + s[k..];
  }

  lemma BetweenTwo(a: Text, b: Text, c: Text)
    ensures At(a + (b + c), 0, a) && At(a + (b + c), |a|, b)
  {
    var x := a + (b + c);
    assert x[0..|a|] == a && x[|a|..|a| + |b|] == b;
  }

  /** The second stage then prefixes the shadow, which puts the begun source behind no base path. */
  lemma BegunTwice(base: Text, name: Text, k: nat)
    requires Ordinary(base, name) && 18 <= k < |ConsoleSource(name)| && !EndsWith(ConsoleSource(name)[..k], base)
    requires ConsoleSource(name)[k..] <= base + ConsoleSource(name)
    requires !(ConsoleSource(name)[k..] <= ConsoleSource(name))
    ensures var once := Prefixed(base, name, Begun(name, k) + ConsoleSource(name));
            Prefixed(base, name, once) != once
  {
    OrdinaryName(base, name);
    RootBytes();
    SourceLength(name);
    hide *;
    var s, r := ConsoleSource(name), STATIC_ROOT;
    var x, y := Begun(name, k) + s, Begun(name, k) + (base + s);
    BegunOnce(base, name, k);
    BaseBegins(base, s, r);
    BegunBytes(name, k, base + s);
    forall j: nat | At(y, j, r) && 19 <= j <= |y| ensures EndsWith(y[..j], base) {
      BegunRootIsPrefixed(base, name, k, j);
    }
    OnlyFirstIsPrefixed(base, r, y);
    var once := base + y;
    Rounds(base, name, x);
    Rounds(base, name, y);
    Rounds(base, name, once);
    SourceInBegun(base, name, k);
    OccursLater(base, y, Shadowed(name));
    if Prefixed(base, name, once) == once {
      EachKeeps(base, name, once);
      NoShadowInPrefixed(base, name, once);
    }
  }

  lemma BaseBegins(base: Text, s: Text, r: Text)
    requires base != [] && r != [] && base[0] == r[0]
    ensures r[..1] <= base + s
  {
  }

  lemma OnlyFirstIsPrefixed(p: Text, r: Text, text: Text)
    requires r != [] && p != [] && At(text, 0, r)
    requires forall j: nat :: At(text, j, r) && |r| <= j <= |text| ==> EndsWith(text[..j], p)
    ensures Rewritten(Prepending(p, r), text) == p + text
  {
    NothingEndsWith(p);
    AtIsWithin(text, 0, r);
    hide At, EndsWith, Substitute;
    var rule := Prepending(p, r);
    SettledIsKept(rule, text, |r|);
    Unfolds(p, r, text, 0);
    assert text[..0] == [];
    AtSplits(text, 0, r);
    assert text[0..] == text;
    Reassociate(p, r, text[|r|..]);
  }

  lemma NothingEndsWith(p: Text)
    requires p != []
    ensures !EndsWith([], p)
  {
  }

  /** Every second round of the two stages changes nothing, if and only if the base path keeps the static root apart. */
  lemma PrefixedIsIdempotentExactlyWhen(base: Text, name: Text)
    requires SLASH !in name && (base == [] || base[0] == SLASH)
    ensures (forall text :: Prefixed(base, name, Prefixed(base, name, text)) == Prefixed(base, name, text)) <==>
            KeepsStaticRootApart(base, name)
  {
    hide *;
    if KeepsStaticRootApart(base, name) {
      forall text ensures Prefixed(base, name, Prefixed(base, name, text)) == Prefixed(base, name, text) {
        SecondRoundKeeps(base, name, text);
      }
    } else {
      var text := ChangedTwice(base, name);
    }
  }

  /** Of a base path that does not, a text that the second round changes. */
  lemma ChangedTwice(base: Text, name: Text) returns (text: Text)
    requires SLASH !in name && (base == [] || base[0] == SLASH) && !KeepsStaticRootApart(base, name)
    ensures Prefixed(base, name, Prefixed(base, name, text)) != Prefixed(base, name, text)
    ensures text == STATIC_ROOT
            || exists k :: 18 <= k < |ConsoleSource(name)| && text == Begun(name, k) + ConsoleSource(name)
  {
    RootNotInside(base);
    NotApart(base, name);
    hide *;
    if !OnlyAtEnd(base, STATIC_ROOT) {
      text := STATIC_ROOT;
      RootTwice(base, name);
    } else {
      var k := BeginningCompleted(base, ConsoleSource(name));
      CompletionBegins(base, name, k);
      text := Begun(name, k) + ConsoleSource(name);
      BegunTwice(base, name, k);
    }
  }

  lemma NotApart(base: Text, name: Text)
    requires !KeepsStaticRootApart(base, name)
    ensures Occurs(STATIC_ROOT, base + [SLASH])
            || (name != STATIC_NAME && !NeverCompleted(base, ConsoleSource(name)))
  {
  }

  lemma CompletionBegins(base: Text, name: Text, k: nat)
    requires SLASH !in name && name != STATIC_NAME && OnlyAtEnd(base, STATIC_ROOT)
    requires base == [] || base[0] == SLASH
    requires 0 < k < |ConsoleSource(name)| && ConsoleSource(name)[k..] <= base + ConsoleSource(name)
    requires !EndsWith(ConsoleSource(name)[..k], base)
    ensures Ordinary(base, name) && k >= 18
  {
    SourceBytes(name);
    hide At, OnlyAtEnd, ConsoleSource, STATIC_ROOT, STATIC_NAME;
    var s := ConsoleSource(name);
    assert base == [] ==> EndsWith(s[..k], base);
    assert s[k] == s[k..][0] == (base + s)[0] == SLASH;
  }

  /** In terms of what the base path begins with: `/NAME/dist/v3dist/`, `/dist/v3dist/` or `/v3dist/`. */
  lemma NeverCompletedExactlyWhen(base: Text, name: Text)
    requires SLASH !in name && name != STATIC_NAME && (base == [] || base[0] == SLASH)
    ensures |ConsoleSource(name)| == 32 + |name|
    ensures NeverCompleted(base, ConsoleSource(name)) <==>
            forall d: nat :: IsInnerSlash(|name|, d) && ConsoleSource(name)[d..] <= base + [SLASH] ==>
              EndsWith(ConsoleSource(name)[..d], base)
  {
    SourceLength(name);
    hide EndsWith, ConsoleSource, STATIC_ROOT, STATIC_NAME;
    var s := ConsoleSource(name);
    forall d: nat | IsInnerSlash(|name|, d)
      ensures !(s[d..] <= s) && (s[d..] <= base + s <==> s[d..] <= base + [SLASH])
    {
      InnerEndDoesNotBegin(name, d);
      EndInBase(base, name, d);
    }
    forall k | 0 < k < |s| && s[k..] <= base + s && !(s[k..] <= s) && !IsInnerSlash(|name|, k)
      ensures EndsWith(s[..k], base)
    {
      OtherEnds(base, name, k);
    }
  }

  lemma EndInBase(base: Text, name: Text, d: nat)
    requires SLASH !in name && IsInnerSlash(|name|, d) && d <= |ConsoleSource(name)|
    requires d == 18 ==> name != STATIC_NAME
    ensures ConsoleSource(name)[d..] <= base + ConsoleSource(name) <==> ConsoleSource(name)[d..] <= base + [SLASH]
  {
    hide *;
    var s := ConsoleSource(name);
    SourceLength(name);
    SlashAndRest(name);
    Reassociate(base, [SLASH], s[1..]);
    if |s[d..]| <= |base| + 1 {
      PrefixWithin(s[d..], base + [SLASH], s[1..]);
    } else if base == [] {
      InnerEndDoesNotBegin(name, d);
      assert base + s == s;
    } else if s[d..] <= base + s {
      assert s[d + |base|] == s[d..][|base|] == (base + s)[|base|] == s[0];
      assert s[d + |base| + 1] == s[d..][|base| + 1] == (base + s)[|base| + 1] == s[1];
      BehindInnerSlash(name, d, d + |base|);
    }
  }

  lemma SlashAndRest(name: Text)
    ensures ConsoleSource(name) != [] && ConsoleSource(name)[0] == SLASH
    ensures ConsoleSource(name) == [SLASH] + ConsoleSource(name)[1..]
  {
    SourceLength(name);
    StaticRootSlashes();
    hide ConsoleSource, STATIC_ROOT;
  }

  lemma BehindInnerSlash(name: Text, d: nat, e: nat)
    requires SLASH !in name && IsInnerSlash(|name|, d) && d < e && e + 1 < |ConsoleSource(name)|
    ensures ConsoleSource(name)[e] == SLASH ==> ConsoleSource(name)[e + 1] != ConsoleSource(name)[1]
  {
    SourceBytes(name);
    hide ConsoleSource, STATIC_ROOT, STATIC_NAME;
    var s := ConsoleSource(name);
    assert s[1] == s[..19][1];
  }

  lemma OtherEnds(base: Text, name: Text, k: nat)
    requires SLASH !in name && (base == [] || base[0] == SLASH)
    requires 0 < k < |ConsoleSource(name)| && !IsInnerSlash(|name|, k)
    requires ConsoleSource(name)[k..] <= base + ConsoleSource(name)
    ensures ConsoleSource(name)[k..] <= ConsoleSource(name)
  {
    SourceBytes(name);
    hide ConsoleSource, STATIC_ROOT, STATIC_NAME;
    var s := ConsoleSource(name);
    assert s[k] == s[k..][0] == (base + s)[0] == SLASH;
    assert s[k..] == [SLASH] == s[..1];
  }
}
