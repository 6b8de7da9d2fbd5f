/** A page in which nothing is left to insert stays one when its metadata is spliced. */
module HtmlMigMeta {
  import opened Bytes
  import opened Html
  import opened MigMeta

  const LETTER_A: Byte := 0x61

  /** A head as an HTML page has it: whitespace, a name without `a`, an equals sign and a quote. */
  predicate IsAttributeHead(h: Text) {
    && |h| >= 4 && IsWhitespace(h[0]) && h[|h| - 2] == EQUALS && IsQuote(h[|h| - 1]) && LETTER_A !in h
    && forall k :: 0 < k < |h| - 1 ==> !IsWhitespace(h[k]) && !IsQuote(h[k])
  }

  /** A root that is no longer than the name of the metadata, and cannot begin inside that name. */
  predicate IsShortRoot(root: Text) {
    |root| <= |ASSIGNMENT| && forall b <- root :: !IsWhitespace(b) && !IsQuote(b) && b != LETTER_A
  }

  /** Neither quotes nor whitespace in what a payload becomes. */
  ghost predicate HasPlainResults(payload: Text -> Option<Text>) {
    forall encoded :: payload(encoded).Some? ==> forall b <- payload(encoded).value :: !IsQuote(b) && !IsWhitespace(b)
  }

  /** Where the bytes of an insertion place are whitespace, where quotes, and where neither. */
  lemma PlaceBytes(h: Text, root: Text, k: nat)
    requires IsAttributeHead(h) && IsShortRoot(root) && k < |h + root|
    ensures var p := h + root;
            && (IsWhitespace(p[k]) <==> k == 0) && (IsQuote(p[k]) <==> k == |h| - 1) && p[k] != LETTER_A
            && (k == |h| - 2 ==> p[k] == EQUALS)
  {
    var p := h + root;
    if k < |h| {
      assert p[k] == h[k] && h[k] in h;
    } else {
      assert p[k] == root[k - |h|] && root[k - |h|] in root;
    }
  }

  /** What stands before the opening quote of a payload is not an attribute name. */
  lemma PayloadContext(s: Text, start: nat, end: nat)
    requires NextStep(s) == Payload(start, end)
    ensures 18 <= start <= end < |s| && IsQuote(s[start - 1]) && IsQuote(s[end])
    ensures s[start - 2] == EQUALS ==> IsWhitespace(s[start - 3]) || s[start - 3] == LETTER_A
  {
    hide FirstFrom, SkipWhitespace, IsQuote, IsWhitespace;
    var a := FirstFrom(s, ASSIGNMENT, 0).value;
    var after := a + |ASSIGNMENT|;
    NameEndsInA();
    AtHasByte(s, a, ASSIGNMENT, after - 1);
    var p := SkipWhitespace(s, after);
    assert ParseAssignment(s, after) == Closed(start, end);
    var q := SkipWhitespace(s, p + 1);
    assert start == q + 1;
    if q > p + 1 {
      EqualsIsNoWhitespace();
      assert IsWhitespace(s[q - 1]);
    }
  }

  lemma NameEndsInA()
    ensures |ASSIGNMENT| == 16 && ASSIGNMENT[15] == LETTER_A
  {
    assert |"window._mig_meta"| == 16 && "window._mig_meta"[15] == 'a';
    assert AsciiByte('a') == LETTER_A;
  }

  lemma EqualsIsNoWhitespace()
    ensures !IsWhitespace(EQUALS) && !IsQuote(EQUALS)
  {
  }

  lemma SkipContext(s: Text, next: nat)
    requires NextStep(s) == SkipTo(next)
    ensures 16 <= next <= |s| && s[next - 1] == LETTER_A
  {
    hide FirstFrom;
    NameEndsInA();
    var a := FirstFrom(s, ASSIGNMENT, 0).value;
    AtHasByte(s, a, ASSIGNMENT, next - 1);
  }

  /** A short text begins the spliced page exactly when it begins the page. */
  lemma BeginningAgrees(payload: Text -> Option<Text>, s: Text, v: Text)
    requires |v| <= |ASSIGNMENT|
    ensures v <= Splice(payload, s) <==> v <= s
  {
    hide NextStep, Splice;
    NameEndsInA();
    var t, step := Splice(payload, s), NextStep(s);
    if step.Done? {
      DoneUnfolds(payload, s);
    } else {
      var n := if step.SkipTo? then step.next else step.start;
      if step.SkipTo? {
        SkipContext(s, n);
        SkipUnfolds(payload, s, n);
      } else {
        PayloadContext(s, n, step.end);
        BeforePayloadIsKept(payload, s, n, step.end);
      }
      assert t[..n] == s[..n];
      assert t == t[..n] + t[n..] && s == s[..n] + s[n..];
      PrefixWithin(v, s[..n], t[n..]);
      PrefixWithin(v, s[..n], s[n..]);
    }
  }

  /** No place in either part, and none across the cut. */
  lemma NoPlaceInParts(x: Text, y: Text, p: Text, j: nat)
    requires j + |p| <= |x| ==> !At(x, j, p)
    requires j >= |x| ==> !At(y, j - |x|, p)
    requires j < |x| < j + |p| ==> !At(x + y, j, p)
    ensures !At(x + y, j, p)
  {
    if j + |p| <= |x| {
      AtIsStable(x, y, j, p);
    } else if j >= |x| {
      assert (x + y)[|x|..] == y;
      AtShifts(x + y, |x|, j - |x|, p);
    }
  }

  ghost predicate Nowhere(p: Text, s: Text) {
    forall j: nat :: !At(s, j, p)
  }

  lemma NowhereInEnd(p: Text, s: Text, n: nat)
    requires Nowhere(p, s) && n <= |s|
    ensures Nowhere(p, s[n..])
  {
    forall j: nat ensures !At(s[n..], j, p) {
      AtShifts(s, n, j, p);
    }
  }

  lemma NowhereInBeginning(p: Text, s: Text, n: nat, j: nat)
    requires Nowhere(p, s) && n <= |s|
    ensures !At(s[..n], j, p)
  {
    if j + |p| <= n {
      AtIsStable(s[..n], s[n..], j, p);
      assert s == s[..n] + s[n..];
    }
  }

  lemma NowhereAfterSkip(h: Text, root: Text, x: Text, y: Text)
    requires IsAttributeHead(h) && IsShortRoot(root) && x != [] && x[|x| - 1] == LETTER_A
    requires (forall j: nat :: !At(x, j, h + root)) && Nowhere(h + root, y)
    ensures Nowhere(h + root, x + y)
  {
    hide IsAttributeHead, IsShortRoot, At;
    var p := h + root;
    forall j: nat ensures !At(x + y, j, p) {
      if j < |x| < j + |p| && At(x + y, j, p) {
        AtHasByte(x + y, j, p, |x| - 1);
        PlaceBytes(h, root, |x| - 1 - j);
        assert false;
      }
      NoPlaceInParts(x, y, p, j);
    }
  }

  /** After a payload that is kept, a place could only begin with its closing quote, and was there before. */
  lemma NowhereAfterKept(h: Text, root: Text, x: Text, y: Text, z: Text)
    requires IsAttributeHead(h) && IsShortRoot(root) && x != [] && IsQuote(x[|x| - 1])
    requires Nowhere(h + root, x + z) && Nowhere(h + root, y) && (root <= y <==> root <= z)
    ensures Nowhere(h + root, x + y)
  {
    hide IsAttributeHead, IsShortRoot, At;
    var p := h + root;
    assert (x + z)[..|x|] == x;
    forall j: nat ensures !At(x + y, j, p) {
      NowhereInBeginning(p, x + z, |x|, j);
      if j < |x| < j + |p| && At(x + y, j, p) {
        AtHasByte(x + y, j, p, |x| - 1);
        PlaceBytes(h, root, |x| - 1 - j);
        assert |x| - j == |h|;
        PlaceWasThere(h, root, x, y, z, j);
        assert false;
      }
      NoPlaceInParts(x, y, p, j);
    }
  }

  lemma PlaceWasThere(h: Text, root: Text, x: Text, y: Text, z: Text, j: nat)
    requires At(x + y, j, h + root) && j + |h| == |x| && (root <= y <==> root <= z)
    ensures At(x + z, j, h + root)
  {
    AtBegins(x + y, j, h + root);
    AtBegins(x + z, j, h + root);
    DropOfConcat(x, y, j);
    DropOfConcat(x, z, j);
    var end := x[j..];
    assert h <= h + root <= end + y && |h| == |end|;
    assert end == (end + y)[..|h|] == (h + root)[..|h|] == h;
    assert root == (h + root)[|h|..] == (h + y)[..|h + root|][|h|..] == y[..|root|];
  }

  /** Around a payload that is replaced there is no place: its opening quote is not an attribute's. */
  lemma NowhereAfterReplaced(h: Text, root: Text, x: Text, r: Text, q: Byte, y: Text)
    requires IsAttributeHead(h) && IsShortRoot(root) && IsQuote(q) && |x| >= 3 && IsQuote(x[|x| - 1])
    requires x[|x| - 2] == EQUALS ==> IsWhitespace(x[|x| - 3]) || x[|x| - 3] == LETTER_A
    requires forall b <- r :: !IsQuote(b) && !IsWhitespace(b)
    requires (forall j: nat :: !At(x, j, h + root)) && Nowhere(h + root, y)
    ensures Nowhere(h + root, x + r + [q] + y)
  {
    hide IsAttributeHead, IsShortRoot, At;
    var front := x + r + [q];
    forall j: nat ensures !At(front + y, j, h + root) {
      if j >= |front| {
        assert (front + y)[|front|..] == y;
        AtShifts(front + y, |front|, j - |front|, h + root);
      } else if At(front + y, j, h + root) {
        PlaceIsBefore(h, root, x, r, q, y, j);
      }
    }
  }

  /** A place does not reach over the opening quote of a payload. */
  lemma NotOverQuote(h: Text, root: Text, t: Text, n: nat, j: nat)
    requires IsAttributeHead(h) && IsShortRoot(root) && 3 <= n <= |t| && IsQuote(t[n - 1])
    requires t[n - 2] == EQUALS ==> IsWhitespace(t[n - 3]) || t[n - 3] == LETTER_A
    requires j < n && At(t, j, h + root)
    ensures j + |h + root| <= n
  {
    hide IsAttributeHead, IsShortRoot, At;
    if n < j + |h + root| {
      QuoteOfPlace(h, root, t, n, j);
    }
  }

  /** Before the quote of a place stands an attribute name. */
  lemma QuoteOfPlace(h: Text, root: Text, t: Text, n: nat, j: nat)
    requires IsAttributeHead(h) && IsShortRoot(root) && j < n < j + |h + root| && At(t, j, h + root)
    requires n <= |t| && IsQuote(t[n - 1])
    ensures n >= 3 && t[n - 2] == EQUALS && !IsWhitespace(t[n - 3]) && t[n - 3] != LETTER_A
  {
    assert |h| >= 4;
    hide IsAttributeHead, IsShortRoot, At;
    AtHasByte(t, j, h + root, n - 1);
    PlaceBytes(h, root, n - 1 - j);
    AtHasByte(t, j, h + root, n - 2);
    PlaceBytes(h, root, n - 2 - j);
    AtHasByte(t, j, h + root, n - 3);
    PlaceBytes(h, root, n - 3 - j);
  }

  lemma ReplacedByte(x: Text, r: Text, q: Byte, y: Text, j: nat)
    requires IsQuote(q) && (forall b <- r :: !IsQuote(b) && !IsWhitespace(b)) && |x| <= j < |x + r + [q]|
    ensures !IsWhitespace((x + r + [q] + y)[j])
  {
    var t := x + r + [q] + y;
    if j < |x + r| {
      assert t[j] == r[j - |x|];
    } else {
      assert t[j] == q;
    }
  }

  lemma PlaceIsBefore(h: Text, root: Text, x: Text, r: Text, q: Byte, y: Text, j: nat)
    requires IsAttributeHead(h) && IsShortRoot(root) && IsQuote(q) && |x| >= 3 && IsQuote(x[|x| - 1])
    requires x[|x| - 2] == EQUALS ==> IsWhitespace(x[|x| - 3]) || x[|x| - 3] == LETTER_A
    requires forall b <- r :: !IsQuote(b) && !IsWhitespace(b)
    requires j < |x + r + [q]| && At(x + r + [q] + y, j, h + root)
    ensures At(x, j, h + root)
  {
    var t, n := x + r + [q] + y, |h + root|;
    assert |h| >= 4;
    hide IsAttributeHead, IsShortRoot, At;
    AtHasByte(t, j, h + root, j);
    PlaceBytes(h, root, 0);
    if j >= |x| {
      ReplacedByte(x, r, q, y, j);
    }
    assert t[..|x|] == x;
    NotOverQuote(h, root, t, |x|, j);
    assert t == x + (r + [q] + y);
    AtIsStable(x, r + [q] + y, j, h + root);
  }

  /** One turn of the splicing, for one kind of place. */
  lemma {:induction false} SpliceAddsNoPlace(payload: Text -> Option<Text>, h: Text, root: Text, s: Text)
    requires HasPlainResults(payload) && IsAttributeHead(h) && IsShortRoot(root) && Nowhere(h + root, s)
    ensures Nowhere(h + root, Splice(payload, s))
    decreases |s|
  {
    hide *;
    var step := NextStep(s);
    if step.Done? {
      DoneUnfolds(payload, s);
    } else if step.SkipTo? {
      var next := step.next;
      SkipContext(s, next);
      NowhereInEnd(h + root, s, next);
      SpliceAddsNoPlace(payload, h, root, s[next..]);
      NowhereInBeginnings(h + root, s, next);
      NowhereAfterSkip(h, root, s[..next], Splice(payload, s[next..]));
      SkipUnfolds(payload, s, next);
    } else {
      var start, end := step.start, step.end;
      PayloadContext(s, start, end);
      NowhereInEnd(h + root, s, end + 1);
      SpliceAddsNoPlace(payload, h, root, s[end + 1..]);
      PayloadUnfolds(payload, s, start, end);
      var rest := Splice(payload, s[end + 1..]);
      if payload(s[start..end]).None? {
        RootIsShort(root);
        BeginningAgrees(payload, s[end + 1..], root);
        assert s == s[..end + 1] + s[end + 1..];
        NowhereAfterKept(h, root, s[..end + 1], rest, s[end + 1..]);
      } else {
        NowhereInBeginnings(h + root, s, start);
        ResultIsPlain(payload, s[start..end]);
        NowhereAfterReplaced(h, root, s[..start], payload(s[start..end]).value, s[end], rest);
      }
    }
  }

  lemma NowhereInBeginnings(p: Text, s: Text, n: nat)
    requires Nowhere(p, s) && n <= |s|
    ensures forall j: nat :: !At(s[..n], j, p)
  {
    forall j: nat ensures !At(s[..n], j, p) {
      NowhereInBeginning(p, s, n, j);
    }
  }

  lemma RootIsShort(root: Text)
    requires IsShortRoot(root)
    ensures |root| <= |ASSIGNMENT|
  {
  }

  lemma ResultIsPlain(payload: Text -> Option<Text>, encoded: Text)
    requires HasPlainResults(payload) && payload(encoded).Some?
    ensures forall b <- payload(encoded).value :: !IsQuote(b) && !IsWhitespace(b)
  {
  }

  /** A page with nothing left to insert stays one when its metadata is spliced. */
  lemma SpliceKeepsPage(payload: Text -> Option<Text>, site: Site, heads: seq<Text>, s: Text)
    requires HasPlainResults(payload) && IsShortRoot(site.root) && forall h <- heads :: IsAttributeHead(h)
    requires NoSite(site, heads, s)
    ensures NoSite(site, heads, Splice(payload, s))
  {
    hide IsAttributeHead, IsShortRoot, HasPlainResults, At, Splice;
    forall h <- heads ensures Nowhere(h + site.root, Splice(payload, s)) {
      SpliceAddsNoPlace(payload, h, site.root, s);
    }
  }

  /** The heads of an HTML response are attribute heads. */
  lemma HtmlHeadsAreAttributeHeads()
    ensures forall h <- HTML_HEADS :: IsAttributeHead(h)
  {
    AttributesAreNames();
    hide Ascii, ATTRIBUTES, IsAttributeHead, IsAttributeName;
    forall h | h in HTML_HEADS ensures IsAttributeHead(h) {
      var i :| 0 <= i < 20 && h == HTML_HEADS[i];
      HeadOfName(BOUNDARIES[i / 4], ATTRIBUTES[i % 4]);
    }
  }

  predicate IsAttributeName(a: Text) {
    && |a| >= 3 && a[|a| - 2] == EQUALS && IsQuote(a[|a| - 1])
    && forall k :: 0 <= k < |a| ==> a[k] != LETTER_A && (k < |a| - 1 ==> !IsWhitespace(a[k]) && !IsQuote(a[k]))
  }

  lemma HeadOfName(b: Byte, a: Text)
    requires IsWhitespace(b) && IsAttributeName(a)
    ensures IsAttributeHead([b] + a)
  {
    var h := [b] + a;
    assert forall k :: 0 < k < |h| ==> h[k] == a[k - 1];
  }

  lemma AttributesAreNames()
    ensures |ATTRIBUTES| == 4 && forall k :: 0 <= k < 4 ==> IsAttributeName(ATTRIBUTES[k])
  {
    AttributeBytes();
    hide Ascii, ATTRIBUTES;
    assert IsAttributeName(ATTRIBUTES[0]) && IsAttributeName(ATTRIBUTES[1]);
    assert IsAttributeName(ATTRIBUTES[2]) && IsAttributeName(ATTRIBUTES[3]);
  }

  // A page with at most one quote has no metadata.

  predicate HasTwoQuotes(s: Text) {
    exists i, j :: 0 <= i < j < |s| && IsQuote(s[i]) && IsQuote(s[j])
  }

  lemma PayloadHasTwoQuotes(s: Text, start: nat, end: nat)
    requires NextStep(s) == Payload(start, end)
    ensures HasTwoQuotes(s)
  {
    hide NextStep, IsQuote;
    PayloadContext(s, start, end);
    assert start - 1 < end;
  }

  lemma {:induction false} KeptWithoutQuotes(payload: Text -> Option<Text>, s: Text)
    requires !HasTwoQuotes(s)
    ensures Splice(payload, s) == s
    decreases |s|
  {
    hide NextStep, Splice, IsQuote;
    match NextStep(s)
    case Done => DoneUnfolds(payload, s);
    case SkipTo(next) =>
      SkipBounds(s, next);
      SkipUnfolds(payload, s, next);
      assert !HasTwoQuotes(s[next..]);
      KeptWithoutQuotes(payload, s[next..]);
    case Payload(start, end) =>
      PayloadHasTwoQuotes(s, start, end);
  }
}
