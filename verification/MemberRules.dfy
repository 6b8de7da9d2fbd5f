/** The member rules of the console, and what neither they nor the exact rules find in what they write. */
module MemberRules {
  import opened Bytes
  import opened LiteralSpec
  import opened ExpressionSpec
  import opened Stages
  import opened Profiles
  import opened StageEffects
  import opened CodeTests
  import opened ExactRules

  // The member rules.

  function MemberPrefix(i: nat): string
    requires i < 4
  {
    CONSOLE_MEMBERS[i].0
  }

  function MemberSuffix(i: nat): string
    requires i < 4
  {
    CONSOLE_MEMBERS[i].1
  }

  function MemberParts(i: nat): seq<string>
    requires i < 4
  {
    CONSOLE_MEMBERS[i].2
  }

  function ConsoleMember(i: nat, base: Text): Spec
    requires i < 4
  {
    ExpressionStage(Pattern(Ascii(MemberPrefix(i)), Ascii(MemberSuffix(i)), Prefix(Filled(MemberParts(i), base)),
                            MemberExpression))
  }

  /** A match, and what is written for it, of the expression `e`. */
  function MemberMatch(i: nat, e: Text): Text
    requires i < 4
  {
    Ascii(MemberPrefix(i)) + e + Ascii(MemberSuffix(i))
  }

  function MemberTail(i: nat, base: Text, e: Text): Text
    requires i < 4 && |MemberParts(i)| == 2
  {
    base + (Ascii(MemberParts(i)[1]) + (e + Ascii(MemberSuffix(i))))
  }

  lemma MemberShape(i: nat)
    requires i < 4
    ensures |MemberParts(i)| == 2 && "basename:" <= MemberParts(i)[0] && "basename:" <= MemberPrefix(i)
    ensures MemberParts(i)[1] != "" && MemberParts(i)[1][0] == '/' && |MemberSuffix(i)| > 2
    ensures MemberSuffix(i)[|MemberSuffix(i)| - 1] == ')' && MemberSuffix(i)[0] == ','
    ensures MemberParts(i)[0] <= MemberPrefix(i) && 9 < |MemberParts(i)[0]| < |MemberPrefix(i)|
  {
  }

  lemma MemberIsWritten(i: nat, base: Text, e: Text)
    requires i < 4 && IsExpression(MemberExpression, e)
    ensures |MemberParts(i)| == 2
    ensures Written(ConsoleMember(i, base), MemberMatch(i, e)) == Ascii(MemberParts(i)[0]) + MemberTail(i, base, e)
  {
    MemberShape(i);
    MemberRenders(i, base, e);
    BetweenIsInstance(ConsoleMember(i, base).pattern, e);
    FilledPair(MemberParts(i), base);
    hide *;
    var start, join, suffix := Ascii(MemberParts(i)[0]), Ascii(MemberParts(i)[1]), Ascii(MemberSuffix(i));
    Reassociate(start, base + join, e + suffix);
    Reassociate(base, join, e + suffix);
    Reassociate(start + (base + join), e, suffix);
    MemberTailIs(i, base, e);
  }

  lemma MemberTailIs(i: nat, base: Text, e: Text)
    requires i < 4 && |MemberParts(i)| == 2
    ensures MemberTail(i, base, e) == base + (Ascii(MemberParts(i)[1]) + (e + Ascii(MemberSuffix(i))))
  {
  }

  lemma MemberRenders(i: nat, base: Text, e: Text)
    requires i < 4
    ensures var p := ConsoleMember(i, base).pattern;
            && p.syntax == MemberExpression && MemberMatch(i, e) == p.prefix + e + p.suffix
            && Render(p, e) == Filled(MemberParts(i), base) + e + Ascii(MemberSuffix(i))
            && ExpressionStage(p) == ConsoleMember(i, base)
  {
    hide Ascii, Filled, MemberParts, MemberSuffix, MemberPrefix;
  }

  lemma FilledPair(parts: seq<string>, base: Text)
    requires |parts| == 2
    ensures Filled(parts, base) == Ascii(parts[0]) + (base + Ascii(parts[1]))
  {
    FilledSteps(parts, base);
    FilledSteps(parts[1..], base);
  }

  lemma MemberInstance(i: nat, base: Text, v: Text) returns (e: Text)
    requires i < 4 && IsInstance(ConsoleMember(i, base), v)
    ensures IsExpression(MemberExpression, e) && v == MemberMatch(i, e)
  {
    e :| IsExpression(MemberExpression, e)
         && v == ConsoleMember(i, base).pattern.prefix + e + ConsoleMember(i, base).pattern.suffix;
  }

  /** A literal that begins like `s`, with the word `w`, does not begin in what a member rule writes. */
  predicate FitsNoMember(s: string, w: string, i: nat, j: nat, k: nat)
    requires k < 4 && |MemberParts(k)| == 2
  {
    && NoWord(w, MemberParts(k)[1]) && NoWord(w, MemberSuffix(k))
    && Parted(s, j, MemberParts(k)[1]) && Parted(s, i, MemberSuffix(k))
  }

  lemma ReturnFitsNoMember(k: nat)
    requires k < 4
    ensures |MemberParts(k)| == 2 && FitsNoMember("return ", "ret", 6, 6, k)
  {
  }

  lemma IfFitsNoMember(k: nat)
    requires k < 4
    ensures |MemberParts(k)| == 2 && FitsNoMember("if (", "if ", 2, 2, k)
  {
  }

  lemma BasenameFitsNoMember(k: nat)
    requires k < 4
    ensures |MemberParts(k)| == 2 && FitsNoMember("basename: ", "bas", 8, 9, k)
    ensures FitsNoMember("basename:\"\"", "bas", 8, 9, k) && FitsNoMember("basename:\\", "bas", 8, 9, k)
  {
  }

  lemma MemberTailNoStart(v: Text, s: string, w: string, i: nat, j: nat, k: nat, base: Text, e: Text)
    requires k < 4 && |MemberParts(k)| == 2 && FitsNoMember(s, w, i, j, k)
    requires w <= s && ArePlain(s) && Ascii(s) <= v && i < |s| && j < |s|
    requires AsciiByte(s[i]) !in e && AsciiByte(s[j]) !in base
    ensures NoStart(v, MemberTail(k, base, e))
  {
    hide Ascii, AsciiByte, NoStart, NoWord, Parted, ArePlain, MemberParts, MemberSuffix;
    var join, suffix := MemberParts(k)[1], MemberSuffix(k);
    WordNoStart(v, s, w, suffix);
    WordNoStart(v, s, w, join);
    NoStartBefore(v, s, i, e, suffix, Ascii(suffix));
    var rest := Ascii(join) + (e + Ascii(suffix));
    NoStartConcat(v, Ascii(join), e + Ascii(suffix));
    NoStartBefore(v, s, j, base, join, rest);
  }

  lemma MemberAgrees(k: nat, base: Text, e: Text)
    requires k < 4 && |MemberParts(k)| == 2
    ensures Agrees(MemberMatch(k, e), Ascii(MemberParts(k)[0]) + MemberTail(k, base, e), |Ascii(MemberParts(k)[0])|)
  {
    MemberShape(k);
    EndsInNoName(MemberSuffix(k));
    var start := MemberParts(k)[0];
    var more := MemberPrefix(k)[|start|..];
    AsciiConcat(start, more);
    MemberMatchIs(k, e);
    MemberTailIs(k, base, e);
    hide *;
    assert MemberPrefix(k) == start + more;
    var suffix := Ascii(MemberSuffix(k));
    var x, y := Ascii(more) + (e + suffix), MemberTail(k, base, e);
    Reassociate(Ascii(start) + Ascii(more), e, suffix);
    Reassociate(Ascii(start), Ascii(more), e + suffix);
    LastOfConcat(Ascii(more), e, suffix);
    LastOfConcat(Ascii(MemberParts(k)[1]), e, suffix);
    LastOfConcat([], base, Ascii(MemberParts(k)[1]) + (e + suffix));
    NothingBefore(base + (Ascii(MemberParts(k)[1]) + (e + suffix)));
    AgreesUpTo(Ascii(start), x, y);
  }

  lemma MemberMatchIs(k: nat, e: Text)
    requires k < 4
    ensures MemberMatch(k, e) == Ascii(MemberPrefix(k)) + e + Ascii(MemberSuffix(k))
  {
  }

  lemma NothingBefore(x: Text)
    ensures [] + x == x
  {
  }

  /** The opening of what a member rule writes: a colon, and behind it no letter. */
  lemma MemberOpening(k: nat)
    requires k < 4
    ensures |MemberParts(k)| == 2
    ensures var a := Ascii(MemberParts(k)[0]);
            && 9 < |a| < 19 && a[8] == AsciiByte(':')
            && AsciiByte('r') !in a[9..] && AsciiByte('i') !in a[9..] && AsciiByte('b') !in a[9..]
  {
    MemberShape(k);
    var start := MemberParts(k)[0];
    assert Lacks(start[9..], 'r') && Lacks(start[9..], 'i') && Lacks(start[9..], 'b') && |start| < 19;
    AsciiLacks(start[9..], 'r');
    AsciiLacks(start[9..], 'i');
    AsciiLacks(start[9..], 'b');
    hide MemberParts, AsciiByte;
    assert Ascii(start)[9..] == Ascii(start[9..]);
  }

  lemma MemberTailBegins(k: nat, base: Text, e: Text)
    requires k < 4 && |MemberParts(k)| == 2 && (base == [] || base[0] == SLASH)
    ensures MemberTail(k, base, e) != [] && MemberTail(k, base, e)[0] == SLASH
  {
    MemberShape(k);
    assert AsciiByte('/') == SLASH;
    hide MemberParts, MemberSuffix;
  }

  lemma SlashIsNoLetter()
    ensures AsciiByte('r') != SLASH && AsciiByte('i') != SLASH && AsciiByte('b') != SLASH
  {
  }

  lemma ExactSourceBytes(i: nat)
    requires i < 4
    ensures var v := Ascii(ExactSource(i));
            && |v| > 18 && v[0] == AsciiByte(if i < 3 then 'r' else 'i')
            && AsciiByte(':') !in v && AsciiByte('=') !in v && Ascii(Opening(i)) <= v
            && (v[|v| - 1] == AsciiByte(';') || v[|v| - 1] == AsciiByte('{'))
  {
    SourceOfExact(i);
    Openings(i);
    LastOfSource(i);
    AsciiLacks(ExactSource(i), ':');
    AsciiLacks(ExactSource(i), '=');
    BeginsWith(ExactSource(i), Opening(i), []);
    hide ExactSource, AsciiByte;
    assert Ascii(ExactSource(i)) + [] == Ascii(ExactSource(i));
    assert ExactSource(i)[0] == Opening(i)[0];
  }

  lemma MemberExpressionLacks(e: Text)
    requires IsExpression(MemberExpression, e)
    ensures e != [] && AsciiByte(' ') !in e && AsciiByte(':') !in e && AsciiByte('=') !in e && AsciiByte('"') !in e
  {
    ExpressionBytes(MemberExpression, e);
    assert AsciiByte(' ') == 0x20 && AsciiByte(':') == 0x3A && AsciiByte('=') == 0x3D && AsciiByte('"') == 0x22;
    hide IsExpression;
    assert forall b <- e :: IdentifierContinue(b) || b == DOT;
  }

  lemma BaseLacks(base: Text)
    requires InQuotes(base)
    ensures AsciiByte(' ') !in base && AsciiByte('"') !in base && AsciiByte('\\') !in base
    ensures base == [] || base[0] == SLASH
  {
    assert AsciiByte(' ') == 0x20 && AsciiByte('"') == DOUBLE_QUOTE && AsciiByte('\\') == BACKSLASH;
  }

  /** The source of an exact rule does not touch what a member rule writes. */
  lemma SourceIsShyOfMember(i: nat, k: nat, base: Text, e: Text)
    requires i < 4 && k < 4 && InQuotes(base) && IsExpression(MemberExpression, e)
    ensures |MemberParts(k)| == 2
    ensures Shy(Ascii(ExactSource(i)), Ascii(MemberParts(k)[0]) + MemberTail(k, base, e), |Ascii(MemberParts(k)[0])|)
    ensures |Ascii(MemberParts(k)[0])| < |Ascii(ExactSource(i))|
  {
    hide *;
    ExactSourceBytes(i);
    Openings(i);
    OpeningEnds(i);
    MemberOpening(k);
    MemberExpressionLacks(e);
    BaseLacks(base);
    MemberTailBegins(k, base, e);
    SlashIsNoLetter();
    var v, n := Ascii(ExactSource(i)), if i < 3 then 6 else 2;
    OpeningFitsNoMember(i, k);
    MemberTailNoStart(v, Opening(i), OpeningWord(i), n, n, k, base, e);
    ShyBefore(v, Ascii(MemberParts(k)[0]), MemberTail(k, base, e), 8);
  }

  lemma OpeningEnds(i: nat)
    ensures var n := if i < 3 then 6 else 2; n < |Opening(i)| && Opening(i)[n] == ' '
  {
  }

  lemma OpeningFitsNoMember(i: nat, k: nat)
    requires k < 4
    ensures |MemberParts(k)| == 2
    ensures var n := if i < 3 then 6 else 2; FitsNoMember(Opening(i), OpeningWord(i), n, n, k)
  {
    ReturnFitsNoMember(k);
    IfFitsNoMember(k);
    hide FitsNoMember, MemberParts;
  }

  /** How a match of a member rule begins. */
  function Basename(i: nat): string {
    if i == 0 || i == 2 then "basename: " else if i == 1 then "basename:\"\"" else "basename:\\"
  }

  lemma Basenames(i: nat)
    requires i < 4
    ensures Basename(i) <= MemberPrefix(i) && "bas" <= Basename(i) && ArePlain(Basename(i)) && |Basename(i)| > 9
    ensures Basename(i)[0] == 'b' && Basename(i)[8] == ':' && Basename(i)[9] in [' ', '"', '\\']
  {
  }

  lemma ColonsOfMember(i: nat)
    requires i < 4
    ensures |MemberPrefix(i)| > 18 && Lacks(MemberPrefix(i)[9..], ':') && Lacks(MemberPrefix(i)[..8], ':')
    ensures Lacks(MemberSuffix(i), ':')
  {
  }

  lemma NoEqualsInMember(i: nat)
    requires i < 4
    ensures |MemberPrefix(i)| > 18 && Lacks(MemberSuffix(i), '=') && Lacks(MemberPrefix(i), '=')
  {
  }

  lemma ColonOnce(i: nat, e: Text, k: nat)
    requires i < 4 && IsExpression(MemberExpression, e) && k < |MemberMatch(i, e)|
    ensures MemberMatch(i, e)[k] == AsciiByte(':') ==> k == 8
  {
    ColonsOfMember(i);
    MemberExpressionLacks(e);
    MemberMatchIs(i, e);
    AsciiLacks(MemberPrefix(i)[9..], ':');
    AsciiLacks(MemberPrefix(i)[..8], ':');
    AsciiLacks(MemberSuffix(i), ':');
    hide MemberPrefix, MemberSuffix, MemberMatch, AsciiByte, IsExpression, Lacks;
    var p, v := MemberPrefix(i), MemberMatch(i, e);
    if k < 8 {
      assert v[k] == Ascii(p)[k] == Ascii(p[..8])[k];
    } else if 8 < k < |p| {
      assert v[k] == Ascii(p)[k] == Ascii(p[9..])[k - 9];
    } else if |p| <= k < |p| + |e| {
      assert v[k] == e[k - |p|];
    } else if k > 8 {
      assert v[k] == Ascii(MemberSuffix(i))[k - |p| - |e|];
    }
  }

  /** A character in which the prefix of one member rule differs from what another writes. */
  lemma MembersDiffer(i: nat, k: nat) returns (d: nat)
    requires i <= k < 4
    ensures |MemberParts(k)| == 2 && d <= |MemberParts(k)[0]| && d < |MemberPrefix(i)|
    ensures MemberPrefix(i)[d] != (MemberParts(k)[0] + "/")[d]
    ensures IsPlainChar(MemberPrefix(i)[d])
  {
    d := if i == k then (if i == 0 then 11 else if i == 1 then 10 else if i == 2 then 12 else 11)
    else if i == 0 && k == 2 then 10 else 9;
  }

  lemma MemberBytes(i: nat, e: Text)
    requires i < 4 && IsExpression(MemberExpression, e)
    ensures var v := MemberMatch(i, e);
            && |v| > 18 && v[0] == AsciiByte('b') && AsciiByte('=') !in v && v[|v| - 1] == AsciiByte(')')
            && Ascii(MemberPrefix(i)) <= v && Ascii(Basename(i)) <= v
  {
    Basenames(i);
    NoEqualsInMember(i);
    MemberShape(i);
    MemberExpressionLacks(e);
    MemberMatchIs(i, e);
    AsciiLacks(MemberPrefix(i), '=');
    AsciiLacks(MemberSuffix(i), '=');
    BeginsWith(MemberPrefix(i), Basename(i), e + Ascii(MemberSuffix(i)));
    hide MemberPrefix, MemberSuffix, MemberMatch, AsciiByte, IsExpression, Lacks, MemberParts;
    Reassociate(Ascii(MemberPrefix(i)), e, Ascii(MemberSuffix(i)));
    assert MemberPrefix(i)[0] == Basename(i)[0];
  }

  lemma BasenameFits(i: nat, k: nat)
    requires i < 4 && k < 4
    ensures |MemberParts(k)| == 2 && FitsNoMember(Basename(i), "bas", 8, 9, k)
  {
    BasenameFitsNoMember(k);
    hide FitsNoMember, MemberParts;
  }

  /** A match of a member rule does not touch what that rule or a later one writes. */
  lemma MemberIsShy(i: nat, k: nat, base: Text, d: Text, e: Text)
    requires i <= k < 4 && InQuotes(base) && IsExpression(MemberExpression, d) && IsExpression(MemberExpression, e)
    ensures |MemberParts(k)| == 2
    ensures Shy(MemberMatch(i, d), Ascii(MemberParts(k)[0]) + MemberTail(k, base, e), |Ascii(MemberParts(k)[0])|)
    ensures |Ascii(MemberParts(k)[0])| < |MemberMatch(i, d)|
  {
    hide *;
    MemberBytes(i, d);
    Basenames(i);
    BasenameFits(i, k);
    MemberOpening(k);
    MemberExpressionLacks(e);
    BaseLacks(base);
    MemberTailBegins(k, base, e);
    SlashIsNoLetter();
    var v, a := MemberMatch(i, d), Ascii(MemberParts(k)[0]);
    MemberTailNoStart(v, Basename(i), "bas", 8, 9, k, base, e);
    var x := MembersDiffer(i, k);
    MembersDifferInByte(i, k, x, v);
    forall n | 0 <= n < |v| && v[n] == a[8] ensures n == 8 {
      ColonOnce(i, d, n);
    }
    ShyAligned(v, a, MemberTail(k, base, e), 8, x);
  }

  lemma MembersDifferInByte(i: nat, k: nat, x: nat, v: Text)
    requires i < 4 && k < 4 && |MemberParts(k)| == 2 && x <= |MemberParts(k)[0]| && x < |MemberPrefix(i)|
    requires MemberPrefix(i)[x] != (MemberParts(k)[0] + "/")[x] && IsPlainChar(MemberPrefix(i)[x])
    requires Ascii(MemberPrefix(i)) <= v
    ensures x < |v| && x <= |Ascii(MemberParts(k)[0])| && v[x] != (Ascii(MemberParts(k)[0]) + [SLASH])[x]
  {
    DifferentBytes((MemberParts(k)[0] + "/")[x], MemberPrefix(i)[x]);
    AsciiConcat(MemberParts(k)[0], "/");
    assert AsciiByte('/') == SLASH;
    assert Ascii("/") == [SLASH];
    hide MemberPrefix, MemberParts, AsciiByte, IsPlainChar;
    assert v[x] == v[..|MemberPrefix(i)|][x];
  }
}
