/** What an expression pattern means on a whole text: prefix, a greedily scanned expression, suffix. */
module ExpressionSpec {
  import opened Bytes
  import opened Utf8
  import opened LiteralSpec

  datatype Syntax = Identifier | MemberExpression
  datatype Replacement = Prefix(prefix: Text) | Template(template: Text)

  datatype Pattern = Pattern(prefix: Text, suffix: Text, replacement: Replacement, syntax: Syntax) {
    predicate Valid() {
      prefix != [] && suffix != []
    }
  }

  predicate IdentifierStart(b: Byte) {
    0x41 <= b <= 0x5A || 0x61 <= b <= 0x7A || b == 0x5F || b == 0x24
  }

  predicate IdentifierContinue(b: Byte) {
    IdentifierStart(b) || 0x30 <= b <= 0x39
  }

  datatype SegmentScan = End(cursor: nat) | MoreNeeded | NoSegment

  function IdentifierEnd(text: Text, c: nat): (e: nat)
    requires c <= |text|
    ensures c <= e <= |text|
    decreases |text| - c
  {
    if c < |text| && IdentifierContinue(text[c]) then IdentifierEnd(text, c + 1) else c
  }

  function ScanSegment(text: Text, c: nat, endOfStream: bool): (s: SegmentScan)
    requires c <= |text|
    ensures s.End? ==> c < s.cursor <= |text|
    ensures endOfStream ==> !s.MoreNeeded?
  {
    if c == |text| then (if endOfStream then NoSegment else MoreNeeded)
    else if !IdentifierStart(text[c]) then NoSegment
    else End(IdentifierEnd(text, c + 1))
  }

  /** The `.name` parts that follow a segment. */
  function ScanMembers(text: Text, c: nat, endOfStream: bool): (s: SegmentScan)
    requires c <= |text|
    ensures s.End? ==> c <= s.cursor <= |text|
    ensures endOfStream ==> !s.MoreNeeded?
    decreases |text| - c
  {
    if c < |text| && text[c] == DOT then
      match ScanSegment(text, c + 1, endOfStream)
      case End(d) => ScanMembers(text, d, endOfStream)
      case other => other
    else End(c)
  }

  function ScanExpression(syntax: Syntax, text: Text, c: nat, endOfStream: bool): (s: SegmentScan)
    requires c <= |text|
    ensures s.End? ==> c < s.cursor <= |text|
    ensures endOfStream ==> !s.MoreNeeded?
  {
    match ScanSegment(text, c, endOfStream)
    case End(d) => if syntax.MemberExpression? then ScanMembers(text, d, endOfStream) else End(d)
    case other => other
  }

  datatype Verdict = Match(length: nat) | NeedMore | NoMatch

  function SuffixVerdict(p: Pattern, text: Text, start: nat, c: nat, endOfStream: bool): (v: Verdict)
    requires p.Valid() && start <= c <= |text|
    ensures v.Match? ==> v.length == c + |p.suffix| - start && At(text, c, p.suffix)
    ensures endOfStream ==> !v.NeedMore?
  {
    var n := if |text| - c < |p.suffix| then |text| - c else |p.suffix|;
    if text[c..c + n] != p.suffix[..n] then NoMatch
    else if n < |p.suffix| then (if endOfStream then NoMatch else NeedMore)
    else Match(c + |p.suffix| - start)
  }

  /** `match_candidate`: the verdict on the prefix at `start`, given the bytes that have arrived. */
  function Candidate(p: Pattern, text: Text, start: nat, endOfStream: bool): (v: Verdict)
    requires p.Valid() && At(text, start, p.prefix)
    ensures v.Match? ==> |p.prefix| + |p.suffix| < v.length && start + v.length <= |text|
                         && At(text, start + v.length - |p.suffix|, p.suffix)
    ensures endOfStream ==> !v.NeedMore?
  {
    match ScanExpression(p.syntax, text, start + |p.prefix|, endOfStream)
    case MoreNeeded => NeedMore
    case NoSegment => NoMatch
    case End(c) => SuffixVerdict(p, text, start, c, endOfStream)
  }

  // The verdict is stable: what is settled before the end of the stream stays settled.

  lemma {:induction false} IdentifierEndIsStable(text: Text, rest: Text, c: nat)
    requires c <= |text| && IdentifierEnd(text, c) < |text|
    ensures IdentifierEnd(text + rest, c) == IdentifierEnd(text, c)
    decreases |text| - c
  {
    if IdentifierContinue(text[c]) {
      IdentifierEndIsStable(text, rest, c + 1);
    }
  }

  lemma SegmentIsStable(text: Text, rest: Text, c: nat, endOfStream: bool)
    requires c <= |text|
    ensures var s := ScanSegment(text, c, false);
            s.NoSegment? || (s.End? && s.cursor < |text|) ==> ScanSegment(text + rest, c, endOfStream) == s
  {
    if c < |text| && IdentifierEnd(text, c + 1) < |text| {
      IdentifierEndIsStable(text, rest, c + 1);
    }
  }

  lemma {:induction false} MembersAreStable(text: Text, rest: Text, c: nat, endOfStream: bool)
    requires c <= |text|
    ensures var s := ScanMembers(text, c, false);
            s.NoSegment? || (s.End? && s.cursor < |text|) ==> ScanMembers(text + rest, c, endOfStream) == s
    decreases |text| - c
  {
    if c < |text| && text[c] == DOT {
      SegmentIsStable(text, rest, c + 1, endOfStream);
      var s := ScanSegment(text, c + 1, false);
      if s.End? {
        MembersAreStable(text, rest, s.cursor, endOfStream);
      }
    }
  }

  lemma SuffixVerdictIsStable(p: Pattern, text: Text, rest: Text, start: nat, c: nat, endOfStream: bool)
    requires p.Valid() && start <= c < |text|
    requires !SuffixVerdict(p, text, start, c, false).NeedMore?
    ensures SuffixVerdict(p, text + rest, start, c, endOfStream) == SuffixVerdict(p, text, start, c, false)
  {
    var all := text + rest;
    var n := if |text| - c < |p.suffix| then |text| - c else |p.suffix|;
    var m := if |all| - c < |p.suffix| then |all| - c else |p.suffix|;
    assert all[c..c + m][..n] == all[c..c + n] == text[c..c + n];
    assert p.suffix[..m][..n] == p.suffix[..n];
  }

  lemma VerdictIsStable(p: Pattern, text: Text, rest: Text, start: nat, endOfStream: bool)
    requires p.Valid() && At(text, start, p.prefix)
    requires !Candidate(p, text, start, false).NeedMore?
    ensures At(text + rest, start, p.prefix)
    ensures Candidate(p, text + rest, start, endOfStream) == Candidate(p, text, start, false)
  {
    AtIsStable(text, rest, start, p.prefix);
    var c := start + |p.prefix|;
    SegmentIsStable(text, rest, c, endOfStream);
    var s := ScanSegment(text, c, false);
    if s.End? {
      MembersAreStable(text, rest, s.cursor, endOfStream);
    }
    var e := ScanExpression(p.syntax, text, c, false);
    if e.End? {
      SuffixVerdictIsStable(p, text, rest, start, e.cursor, endOfStream);
    }
  }

  // What a match is, without scanning.

  predicate IsIdentifier(s: Text) {
    s != [] && IdentifierStart(s[0]) && forall i :: 0 < i < |s| ==> IdentifierContinue(s[i])
  }

  /** An identifier, or for member syntax identifiers joined by dots. */
  ghost predicate IsExpression(syntax: Syntax, s: Text)
    decreases |s|
  {
    || IsIdentifier(s)
    || (syntax.MemberExpression? && exists n :: 0 < n < |s| && IsIdentifier(s[..n]) && s[n] == DOT
                                                && IsExpression(syntax, s[n + 1..]))
  }

  /** A byte that a greedy scan would go on with. */
  predicate Extends(syntax: Syntax, b: Byte) {
    IdentifierContinue(b) || (syntax.MemberExpression? && b == DOT)
  }

  lemma {:induction false} IdentifierEndIsGreedy(text: Text, c: nat)
    requires c <= |text|
    ensures var e := IdentifierEnd(text, c);
            && (forall i :: c <= i < e ==> IdentifierContinue(text[i]))
            && (e < |text| ==> !IdentifierContinue(text[e]))
    decreases |text| - c
  {
    if c < |text| && IdentifierContinue(text[c]) {
      IdentifierEndIsGreedy(text, c + 1);
    }
  }

  lemma ScannedSegmentIsIdentifier(text: Text, c: nat)
    requires c <= |text| && ScanSegment(text, c, true).End?
    ensures IsIdentifier(text[c..ScanSegment(text, c, true).cursor])
    ensures var d := ScanSegment(text, c, true).cursor; d < |text| ==> !IdentifierContinue(text[d])
  {
    IdentifierEndIsGreedy(text, c + 1);
  }

  /** A segment that is an identifier up to a byte that does not continue it is what the scan finds. */
  lemma IdentifierIsScanned(text: Text, c: nat, d: nat)
    requires c < d < |text| && IsIdentifier(text[c..d]) && !IdentifierContinue(text[d])
    ensures ScanSegment(text, c, true) == End(d)
  {
    var s := text[c..d];
    assert text[c] == s[0];
    IdentifierEndIsGreedy(text, c + 1);
    var e := IdentifierEnd(text, c + 1);
    if e < d {
      assert text[e] == s[e - c];
    }
  }

  /** The scan of an expression from `c`, when it ends, ends after an expression nothing extends. */
  lemma {:induction false} ScannedIsExpression(syntax: Syntax, text: Text, c: nat)
    requires c <= |text| && ScanExpression(syntax, text, c, true).End?
    ensures var e := ScanExpression(syntax, text, c, true).cursor;
            IsExpression(syntax, text[c..e]) && (e < |text| ==> !Extends(syntax, text[e]))
    decreases |text| - c
  {
    ScanGoesOn(syntax, text, c);
    ScannedSegmentIsIdentifier(text, c);
    hide ScanExpression, ScanSegment, IsExpression, IsIdentifier;
    var d := ScanSegment(text, c, true).cursor;
    var e := ScanExpression(syntax, text, c, true).cursor;
    if syntax.MemberExpression? && d < |text| && text[d] == DOT {
      ScannedIsExpression(syntax, text, d + 1);
      JoinedExpression(syntax, text, c, d, e);
    } else {
      IdentifierIsExpression(syntax, text[c..d]);
    }
  }

  /** After a segment the scan goes on exactly at a dot of a member expression. */
  lemma ScanGoesOn(syntax: Syntax, text: Text, c: nat)
    requires c <= |text| && ScanExpression(syntax, text, c, true).End?
    ensures ScanSegment(text, c, true).End?
    ensures var d := ScanSegment(text, c, true).cursor;
            if syntax.MemberExpression? && d < |text| && text[d] == DOT
            then ScanExpression(syntax, text, c, true) == ScanExpression(syntax, text, d + 1, true)
            else ScanExpression(syntax, text, c, true) == End(d)
  {
    hide ScanSegment;
  }

  lemma IdentifierIsExpression(syntax: Syntax, s: Text)
    requires IsIdentifier(s)
    ensures IsExpression(syntax, s)
  {
  }

  lemma JoinedExpression(syntax: Syntax, text: Text, c: nat, d: nat, e: nat)
    requires syntax.MemberExpression? && c < d < e <= |text| && text[d] == DOT
    requires IsIdentifier(text[c..d]) && d + 1 < e && IsExpression(syntax, text[d + 1..e])
    ensures IsExpression(syntax, text[c..e])
  {
    hide IsIdentifier;
    SliceOfSlice(text, c, e, d - c);
  }

  lemma SliceOfSlice(text: Text, c: nat, e: nat, n: nat)
    requires c + n < e <= |text|
    ensures text[c..e][..n] == text[c..c + n] && text[c..e][n] == text[c + n]
    ensures text[c..e][n + 1..] == text[c + n + 1..e]
  {
  }

  lemma FirstSegment(syntax: Syntax, s: Text) returns (n: nat)
    requires IsExpression(syntax, s) && !IsIdentifier(s)
    ensures syntax.MemberExpression?
    ensures 0 < n < |s| && IsIdentifier(s[..n]) && s[n] == DOT && IsExpression(syntax, s[n + 1..])
  {
    n :| 0 < n < |s| && IsIdentifier(s[..n]) && s[n] == DOT && IsExpression(syntax, s[n + 1..]);
  }

  lemma {:induction false} ExpressionIsScanned(syntax: Syntax, text: Text, c: nat, e: nat)
    requires c < e < |text| && IsExpression(syntax, text[c..e]) && !Extends(syntax, text[e])
    ensures ScanExpression(syntax, text, c, true) == End(e)
    decreases |text| - c
  {
    hide IsExpression, IsIdentifier, IdentifierContinue, ScanSegment;
    var s := text[c..e];
    if IsIdentifier(s) {
      IdentifierIsScanned(text, c, e);
    } else {
      var n := FirstSegment(syntax, s);
      var d := c + n;
      SliceOfSlice(text, c, e, n);
      DotIsNoIdentifierByte();
      IdentifierIsScanned(text, c, d);
      ExpressionIsNotEmpty(syntax, s[n + 1..]);
      ExpressionIsScanned(syntax, text, d + 1, e);
    }
  }

  lemma DotIsNoIdentifierByte()
    ensures !IdentifierContinue(DOT)
  {
  }

  lemma ExpressionIsNotEmpty(syntax: Syntax, s: Text)
    requires IsExpression(syntax, s)
    ensures s != []
  {
  }

  /** At the end of the stream, the verdict is Match(n) exactly for a prefix, an expression and a
      suffix whose first byte could not have belonged to the expression. */
  lemma MatchIsExpressionBetween(p: Pattern, text: Text, start: nat, n: nat)
    requires p.Valid() && At(text, start, p.prefix)
    ensures Candidate(p, text, start, true) == Match(n) <==>
            && |p.prefix| + |p.suffix| < n && start + n <= |text|
            && IsExpression(p.syntax, text[start + |p.prefix|..start + n - |p.suffix|])
            && At(text, start + n - |p.suffix|, p.suffix)
            && !Extends(p.syntax, p.suffix[0])
  {
    hide IsExpression, Extends, ScanExpression, At;
    var c, e := start + |p.prefix|, start + n - |p.suffix|;
    if Candidate(p, text, start, true) == Match(n) {
      ScannedIsExpression(p.syntax, text, c);
      MatchEndsInSuffix(p, text, start, n);
      AtHasByte(text, e, p.suffix, e);
    }
    if && |p.prefix| + |p.suffix| < n && start + n <= |text|
       && IsExpression(p.syntax, text[c..e]) && At(text, e, p.suffix) && !Extends(p.syntax, p.suffix[0]) {
      AtHasByte(text, e, p.suffix, e);
      ExpressionIsScanned(p.syntax, text, c, e);
      SuffixThere(p, text, start, e);
    }
  }

  /** A match ends where the scan of the expression and the suffix after it end. */
  lemma MatchEndsInSuffix(p: Pattern, text: Text, start: nat, n: nat)
    requires p.Valid() && At(text, start, p.prefix) && Candidate(p, text, start, true) == Match(n)
    ensures var e := start + n - |p.suffix|;
            && |p.prefix| + |p.suffix| < n && start + n <= |text|
            && ScanExpression(p.syntax, text, start + |p.prefix|, true) == End(e) && At(text, e, p.suffix)
  {
    hide ScanExpression, At;
  }

  lemma SuffixThere(p: Pattern, text: Text, start: nat, c: nat)
    requires p.Valid() && start <= c <= |text| && At(text, c, p.suffix)
    ensures SuffixVerdict(p, text, start, c, true) == Match(c + |p.suffix| - start)
  {
  }

  // The rewriting of a whole text.

  const MARKER: Text := Ascii("{identifier}")

  /** Every marker in the template becomes the expression. */
  function RenderTemplate(template: Text, expression: Text): Text {
    Substitute(Rule(MARKER, Exact(expression)), template, 0)
  }

  function Render(p: Pattern, expression: Text): Text {
    match p.replacement
    case Prefix(replacement) => replacement + expression + p.suffix
    case Template(template) => RenderTemplate(template, expression)
  }

  /** Does `output` end with an identifier byte? */
  predicate EndsInIdentifier(output: Text) {
    output != [] && IdentifierContinue(output[|output| - 1])
  }

  /** The pattern matches at `i`, with this many bytes, if it may match there at all. */
  function MatchAt(p: Pattern, text: Text, i: nat, afterIdentifier: bool): (m: Option<nat>)
    requires p.Valid()
    ensures m.Some? ==> |p.prefix| + |p.suffix| < m.value && i + m.value <= |text|
  {
    if afterIdentifier || !At(text, i, p.prefix) then None
    else match Candidate(p, text, i, true)
         case Match(n) => Some(n)
         case _ => None
  }

  function Expression(p: Pattern, text: Text, i: nat, n: nat): Text
    requires |p.prefix| + |p.suffix| <= n && i + n <= |text|
  {
    text[i + |p.prefix|..i + n - |p.suffix|]
  }

  /**
   * Left to right: a match that does not follow an identifier byte is replaced, any other byte is
   * copied. The bytes looked back at are those written, copied or rendered.
   */
  function Rewrite(p: Pattern, text: Text, i: nat, afterIdentifier: bool): Text
    requires p.Valid() && i <= |text|
    decreases |text| - i
  {
    if i == |text| then []
    else match MatchAt(p, text, i, afterIdentifier)
         case Some(n) =>
           var r := Render(p, Expression(p, text, i, n));
           r + Rewrite(p, text, i + n, EndsInIdentifier(r))
         case None => [text[i]] + Rewrite(p, text, i + 1, IdentifierContinue(text[i]))
  }

  /** Stretches without the prefix are copied. */
  lemma {:induction false} RewriteSkips(p: Pattern, text: Text, i: nat, m: nat, afterIdentifier: bool)
    requires p.Valid() && i < m <= |text|
    requires forall j :: i <= j < m ==> !At(text, j, p.prefix)
    ensures Rewrite(p, text, i, afterIdentifier) == text[i..m] + Rewrite(p, text, m, IdentifierContinue(text[m - 1]))
    decreases m - i
  {
    hide At, MatchAt, Rewrite, IdentifierContinue;
    var rest := Rewrite(p, text, m, IdentifierContinue(text[m - 1]));
    NoMatchWithoutPrefix(p, text, i, afterIdentifier);
    RewriteUnfolds(p, text, i, afterIdentifier);
    SliceStep(text, i, m);
    Reassociate([text[i]], text[i + 1..m], rest);
    if i + 1 < m {
      RewriteSkips(p, text, i + 1, m, IdentifierContinue(text[i]));
    }
  }

  // Well-formed UTF-8 is preserved.

  /** The literals of a pattern are well-formed text. */
  predicate Utf8Literals(p: Pattern) {
    && Tail([], p.prefix) == Some([]) && Tail([], p.suffix) == Some([])
    && match p.replacement
       case Prefix(replacement) => Tail([], replacement) == Some([])
       case Template(template) => Tail([], template) == Some([])
  }

  lemma {:induction false} ExpressionIsAscii(syntax: Syntax, s: Text)
    requires IsExpression(syntax, s)
    ensures forall i :: 0 <= i < |s| ==> s[i] < 128
    decreases |s|
  {
    if !IsIdentifier(s) {
      var n := FirstSegment(syntax, s);
      ExpressionIsAscii(syntax, s[n + 1..]);
      forall i | 0 <= i < |s| ensures s[i] < 128 {
        if i < n { assert s[i] == s[..n][i]; } else if i > n { assert s[i] == s[n + 1..][i - n - 1]; }
      }
    }
  }

  lemma RenderPreservesUtf8(p: Pattern, expression: Text)
    requires Utf8Literals(p)
    requires forall i :: 0 <= i < |expression| ==> expression[i] < 128
    ensures Tail([], Render(p, expression)) == Some([])
  {
    AsciiIsAccepted(expression);
    match p.replacement
    case Prefix(replacement) =>
      TailOfConcat([], replacement, expression);
      TailOfConcat([], replacement + expression, p.suffix);
    case Template(template) =>
      AsciiIsAccepted(MARKER);
      assert template[0..] == template;
      SubstitutePreservesUtf8(Rule(MARKER, Exact(expression)), template, 0, []);
  }

  lemma RewriteUnfolds(p: Pattern, text: Text, i: nat, afterIdentifier: bool)
    requires p.Valid() && i < |text|
    ensures Rewrite(p, text, i, afterIdentifier) ==
            match MatchAt(p, text, i, afterIdentifier)
            case Some(n) =>
              var r := Render(p, Expression(p, text, i, n));
              r + Rewrite(p, text, i + n, EndsInIdentifier(r))
            case None => [text[i]] + Rewrite(p, text, i + 1, IdentifierContinue(text[i]))
  {
    hide MatchAt, Render, Expression, EndsInIdentifier, IdentifierContinue;
  }

  lemma NoMatchWithoutPrefix(p: Pattern, text: Text, i: nat, afterIdentifier: bool)
    requires p.Valid() && !At(text, i, p.prefix)
    ensures MatchAt(p, text, i, afterIdentifier) == None
  {
  }

  /** A match is prefix, expression and suffix, all of them well formed. */
  lemma MatchedTextIsUtf8(p: Pattern, text: Text, i: nat, n: nat)
    requires p.Valid() && Utf8Literals(p) && MatchAt(p, text, i, false) == Some(n)
    ensures Tail([], text[i..i + n]) == Some([]) && text[i..i + n] != []
    ensures Tail([], Render(p, Expression(p, text, i, n))) == Some([])
  {
    hide IsExpression, Tail, Render, Candidate;
    MatchIsExpressionBetween(p, text, i, n);
    var e := Expression(p, text, i, n);
    ExpressionIsAscii(p.syntax, e);
    AsciiIsAccepted(e);
    assert text[i..i + n] == p.prefix + e + p.suffix;
    TailOfConcat([], p.prefix, e);
    TailOfConcat([], p.prefix + e, p.suffix);
    RenderPreservesUtf8(p, e);
  }

  lemma {:induction false} RewritePreservesUtf8(p: Pattern, text: Text, i: nat, afterIdentifier: bool, tail: Text)
    requires p.Valid() && Utf8Literals(p) && i <= |text|
    requires tail == [] || IsPartial(tail)
    requires Tail(tail, text[i..]) == Some([])
    ensures Tail(tail, Rewrite(p, text, i, afterIdentifier)) == Some([])
    decreases |text| - i
  {
    hide *;
    if i == |text| {
      assert text[i..] == [];
      RewriteOfNothing(p, text, afterIdentifier);
      return;
    }
    RewriteUnfolds(p, text, i, afterIdentifier);
    match MatchAt(p, text, i, afterIdentifier)
    case Some(n) =>
      MatchIsNotAfterIdentifier(p, text, i, afterIdentifier);
      MatchedTextIsUtf8(p, text, i, n);
      var r := Render(p, Expression(p, text, i, n));
      var left, rest := text[i + n..], Rewrite(p, text, i + n, EndsInIdentifier(r));
      assert text[i..] == text[i..i + n] + left;
      ReplacedTail(tail, text[i..i + n], left, r, rest);
      RewritePreservesUtf8(p, text, i + n, EndsInIdentifier(r), []);
    case None =>
      assert text[i..] == [text[i]] + text[i + 1..];
      var t := CopiedTail(tail, text[i], text[i + 1..], Rewrite(p, text, i + 1, IdentifierContinue(text[i])));
      RewritePreservesUtf8(p, text, i + 1, IdentifierContinue(text[i]), t);
  }

  lemma RewriteOfNothing(p: Pattern, text: Text, afterIdentifier: bool)
    requires p.Valid()
    ensures Rewrite(p, text, |text|, afterIdentifier) == []
  {
  }

  lemma MatchIsNotAfterIdentifier(p: Pattern, text: Text, i: nat, afterIdentifier: bool)
    requires p.Valid() && MatchAt(p, text, i, afterIdentifier).Some?
    ensures !afterIdentifier
  {
  }
}
