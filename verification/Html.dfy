/** The attribute rules of the HTML profiles: twenty stages that act as one simultaneous insertion. */
module Html {
  import opened Bytes
  import opened LiteralSpec
  import opened Stages

  /** Where the base path goes: after an attribute head, in front of the proxy root. */
  datatype Site = Site(base: Text, root: Text) {
    predicate IsPlain() {
      Plain(base) && Plain(root)
    }
  }

  /** All whitespace, in the order of the source. */
  const BOUNDARIES: Text := [0x20, 0x09, 0x0D, 0x0A, 0x0C]
  const ATTRIBUTES: seq<Text> := [Ascii("href=\""), Ascii("href='"), Ascii("src=\""), Ascii("src='")]

  lemma BoundariesAreWhitespace()
    ensures forall b :: b in BOUNDARIES <==> IsWhitespace(b)
  {
  }

  predicate Plain(s: Text) {
    forall i :: 0 <= i < |s| ==> !IsWhitespace(s[i])
  }

  /** A boundary and an attribute name up to its opening quote. */
  predicate IsHead(h: Text) {
    h != [] && IsWhitespace(h[0]) && Plain(h[1..])
  }

  ghost predicate Heads(heads: seq<Text>) {
    && (forall i :: 0 <= i < |heads| ==> IsHead(heads[i]))
    && (forall i, j :: 0 <= i < |heads| && 0 <= j < |heads| && heads[i] <= heads[j] ==> heads[i] == heads[j])
  }

  /** The head, if any, that the text begins with together with the root. */
  function Leading(site: Site, heads: seq<Text>, s: Text): (h: Option<Text>)
    ensures h.Some? ==> h.value in heads && h.value + site.root <= s
  {
    if heads == [] then None
    else if heads[0] + site.root <= s then Some(heads[0])
    else Leading(site, heads[1..], s)
  }

  /** One pass that inserts the base path at every head followed by the root. */
  function InsertAll(site: Site, heads: seq<Text>, s: Text): Text
    decreases |s|
  {
    if s == [] then []
    else match Leading(site, heads, s)
         case Some(h) =>
           if h + site.root == [] then s
           else h + site.base + site.root + InsertAll(site, heads, s[|h + site.root|..])
         case None => [s[0]] + InsertAll(site, heads, s[1..])
  }

  lemma {:induction false} LeadingIsAny(site: Site, heads: seq<Text>, s: Text, h: Text)
    requires Heads(heads) && h in heads && h + site.root <= s
    ensures Leading(site, heads, s) == Some(h)
    decreases |heads|
  {
    if heads[0] + site.root <= s {
      assert heads[0] <= s && h <= s;
      if |heads[0]| <= |h| { assert heads[0] <= h; } else { assert h <= heads[0]; }
    } else {
      TailOfHeads(heads);
      LeadingIsAny(site, heads[1..], s, h);
    }
  }

  lemma TailOfHeads(heads: seq<Text>)
    requires Heads(heads) && heads != []
    ensures Heads(heads[1..])
  {
  }

  lemma {:induction false} LeadingIsNone(site: Site, heads: seq<Text>, s: Text)
    ensures Leading(site, heads, s).None? <==> forall h <- heads :: !(h + site.root <= s)
    decreases |heads|
  {
    if heads != [] {
      LeadingIsNone(site, heads[1..], s);
      assert heads == [heads[0]] + heads[1..];
    }
  }

  /** An occurrence does not reach over a boundary that follows. */
  lemma HeadEndsBefore(site: Site, h: Text, x: Text, y: Text)
    requires site.IsPlain() && IsHead(h) && x != [] && (y != [] ==> IsWhitespace(y[0]))
    ensures h + site.root <= x + y <==> h + site.root <= x
  {
    var p := h + site.root;
    if p <= x + y && |p| > |x| {
      var i := |x|;
      assert p[i] == (x + y)[i] == y[0];
      if i < |h| { assert h[1..][i - 1] == p[i]; } else { assert site.root[i - |h|] == p[i]; }
      assert false;
    }
    if |p| <= |x| {
      PrefixWithin(p, x, y);
    }
  }

  lemma LeadingEndsBefore(site: Site, heads: seq<Text>, x: Text, y: Text)
    requires site.IsPlain() && Heads(heads) && x != [] && (y != [] ==> IsWhitespace(y[0]))
    ensures Leading(site, heads, x + y) == Leading(site, heads, x)
  {
    LeadingIsNone(site, heads, x);
    LeadingIsNone(site, heads, x + y);
    forall h <- heads ensures h + site.root <= x + y <==> h + site.root <= x {
      HeadEndsBefore(site, h, x, y);
    }
    if Leading(site, heads, x).Some? {
      LeadingIsAny(site, heads, x + y, Leading(site, heads, x).value);
    }
  }

  /** The pass works on the two sides of a boundary separately. */
  lemma {:induction false} InsertAllSplits(site: Site, heads: seq<Text>, x: Text, y: Text)
    requires site.IsPlain() && Heads(heads) && (y != [] ==> IsWhitespace(y[0]))
    ensures InsertAll(site, heads, x + y) == InsertAll(site, heads, x) + InsertAll(site, heads, y)
    decreases |x|
  {
    hide Heads, Plain, Leading, InsertAll;
    if x == [] {
      assert x + y == y;
      NothingToPass(site, heads);
      assert [] + InsertAll(site, heads, y) == InsertAll(site, heads, y);
    } else {
      LeadingEndsBefore(site, heads, x, y);
      InsertAllUnfolds(site, heads, x);
      InsertAllUnfolds(site, heads, x + y);
      var front, n := PassedFirst(site, heads, x);
      DropOfConcat(x, y, n);
      InsertAllSplits(site, heads, x[n..], y);
      Reassociate(front, InsertAll(site, heads, x[n..]), InsertAll(site, heads, y));
    }
  }

  lemma InsertAllUnfolds(site: Site, heads: seq<Text>, s: Text)
    requires Heads(heads) && s != []
    ensures InsertAll(site, heads, s) ==
            match Leading(site, heads, s)
            case Some(h) => h + site.base + site.root + InsertAll(site, heads, s[|h + site.root|..])
            case None => [s[0]] + InsertAll(site, heads, s[1..])
  {
    hide Leading;
  }

  /** What the pass writes first, and how much of the text that is for. */
  lemma PassedFirst(site: Site, heads: seq<Text>, s: Text) returns (front: Text, n: nat)
    requires Heads(heads) && s != []
    ensures 0 < n <= |s|
    ensures Leading(site, heads, s).None? ==> front == [s[0]] && n == 1
    ensures Leading(site, heads, s).Some? ==>
              var h := Leading(site, heads, s).value;
              front == h + site.base + site.root && n == |h + site.root|
  {
    match Leading(site, heads, s)
    case Some(h) =>
      HeadIsNotEmpty(heads, h);
      front, n := h + site.base + site.root, |h + site.root|;
    case None =>
      front, n := [s[0]], 1;
  }

  lemma HeadIsNotEmpty(heads: seq<Text>, h: Text)
    requires Heads(heads) && h in heads
    ensures h != [] && IsWhitespace(h[0]) && Plain(h[1..])
  {
  }

  lemma {:induction false} PlainIsCopied(site: Site, heads: seq<Text>, x: Text)
    requires Heads(heads) && Plain(x)
    ensures InsertAll(site, heads, x) == x
    decreases |x|
  {
    if x != [] {
      forall h <- heads ensures !(h + site.root <= x) {
        HeadIsNotEmpty(heads, h);
        assert (h + site.root)[0] == h[0];
      }
      LeadingIsNone(site, heads, x);
      PlainIsCopied(site, heads, x[1..]);
    }
  }

  /** A stretch of text with no boundary after its first byte. */
  predicate IsBlock(b: Text) {
    b != [] && Plain(b[1..])
  }

  /** What the pass does to one block: it holds at most one place to insert at, its beginning. */
  function InsertInBlock(site: Site, heads: seq<Text>, b: Text): Text {
    match Leading(site, heads, b)
    case Some(h) => h + site.base + b[|h|..]
    case None => b
  }

  lemma BlockIsPassed(site: Site, heads: seq<Text>, b: Text)
    requires site.IsPlain() && Heads(heads) && IsBlock(b)
    ensures InsertAll(site, heads, b) == InsertInBlock(site, heads, b)
    ensures IsBlock(InsertInBlock(site, heads, b))
  {
    hide *;
    if Leading(site, heads, b).Some? {
      var h := Leading(site, heads, b).value;
      HeadIsNotEmpty(heads, h);
      HeadOfBlock(site, heads, b, h);
    } else {
      NoHeadOfBlock(site, heads, b);
    }
  }

  lemma NoHeadOfBlock(site: Site, heads: seq<Text>, b: Text)
    requires Heads(heads) && IsBlock(b) && Leading(site, heads, b).None?
    ensures InsertAll(site, heads, b) == b == InsertInBlock(site, heads, b)
    ensures IsBlock(b)
  {
    PlainIsCopied(site, heads, b[1..]);
    assert b == [b[0]] + b[1..];
  }

  lemma HeadOfBlock(site: Site, heads: seq<Text>, b: Text, h: Text)
    requires site.IsPlain() && Heads(heads) && IsBlock(b) && Leading(site, heads, b) == Some(h)
    requires h != [] && IsWhitespace(h[0]) && Plain(h[1..])
    ensures InsertAll(site, heads, b) == InsertInBlock(site, heads, b)
    ensures IsBlock(InsertInBlock(site, heads, b))
  {
    hide Heads, Plain, Leading;
    var p := h + site.root;
    var rest := b[|p|..];
    assert b == p + rest;
    assert rest == b[1..][|p| - 1..];
    PlainParts(b[1..], |p| - 1);
    PlainIsCopied(site, heads, rest);
    InsertedBlock(site, h, b);
  }

  lemma InsertedBlock(site: Site, h: Text, b: Text)
    requires h != [] && h + site.root <= b
    requires Plain(h[1..]) && site.IsPlain() && Plain(b[|h + site.root|..])
    ensures h + site.base + b[|h|..] == h + site.base + site.root + b[|h + site.root|..]
    ensures IsBlock(h + site.base + b[|h|..])
  {
    hide Plain;
    var rest := b[|h + site.root|..];
    assert b == h + site.root + rest;
    assert b[|h|..] == site.root + rest;
    var r := h + site.base + b[|h|..];
    assert r == h + site.base + site.root + rest;
    assert r[1..] == h[1..] + site.base + site.root + rest;
    PlainConcat(h[1..], site.base);
    PlainConcat(h[1..] + site.base, site.root);
    PlainConcat(h[1..] + site.base + site.root, rest);
  }

  lemma PlainParts(s: Text, n: nat)
    requires Plain(s) && n <= |s|
    ensures Plain(s[n..])
  {
  }

  lemma PlainConcat(a: Text, b: Text)
    requires Plain(a) && Plain(b)
    ensures Plain(a + b)
  {
  }

  /** The end of the first block. */
  lemma {:induction false} FirstBlock(s: Text, i: nat) returns (n: nat)
    requires 0 < i <= |s| && Plain(s[1..i])
    ensures 0 < n <= |s| && IsBlock(s[..n]) && (n < |s| ==> IsWhitespace(s[n]))
    decreases |s| - i
  {
    if i == |s| || IsWhitespace(s[i]) {
      n := i;
      assert s[..n][1..] == s[1..i];
    } else {
      assert s[1..i + 1] == s[1..i] + [s[i]];
      n := FirstBlock(s, i + 1);
    }
  }

  /** The output begins with the byte the text begins with. */
  lemma FirstByteStays(site: Site, heads: seq<Text>, y: Text)
    requires Heads(heads) && y != []
    ensures InsertAll(site, heads, y) != [] && InsertAll(site, heads, y)[0] == y[0]
  {
    match Leading(site, heads, y)
    case Some(h) =>
      HeadIsNotEmpty(heads, h);
      assert (h + site.root)[0] == h[0];
    case None =>
  }

  /** Passes that compose on blocks compose on every text. */
  lemma {:induction false} PassesCompose(site: Site, first: seq<Text>, second: seq<Text>, both: seq<Text>, s: Text)
    requires site.IsPlain() && Heads(first) && Heads(second) && Heads(both)
    requires forall b: Text :: IsBlock(b) ==>
               InsertInBlock(site, second, InsertInBlock(site, first, b)) == InsertInBlock(site, both, b)
    ensures InsertAll(site, second, InsertAll(site, first, s)) == InsertAll(site, both, s)
    decreases |s|
  {
    hide Heads, InsertInBlock, InsertAll;
    if s == [] {
      NothingToPass(site, first);
      NothingToPass(site, second);
      NothingToPass(site, both);
    } else {
      assert s[1..1] == [];
      var n := FirstBlock(s, 1);
      var b, y := s[..n], s[n..];
      assert s == b + y;
      InsertAllSplits(site, first, b, y);
      InsertAllSplits(site, both, b, y);
      BlockIsPassed(site, first, b);
      BlockIsPassed(site, both, b);
      var b', y' := InsertInBlock(site, first, b), InsertAll(site, first, y);
      BlockIsPassed(site, second, b');
      if y == [] {
        NothingToPass(site, first);
      } else {
        FirstByteStays(site, first, y);
      }
      InsertAllSplits(site, second, b', y');
      PassesCompose(site, first, second, both, y);
    }
  }

  lemma NothingToPass(site: Site, heads: seq<Text>)
    ensures InsertAll(site, heads, []) == []
  {
  }

  /** Another head leaves a block alone in which the base path has been inserted. */
  lemma OnlyOneHeadLeads(site: Site, heads: seq<Text>, h: Text, g: Text, b: Text)
    requires Heads(heads) && h in heads && g in heads && h <= b && g + site.root <= b
    ensures g == h
  {
    assert g <= b;
    if |g| <= |h| { assert g <= h; } else { assert h <= g; }
  }

  lemma OneMoreHead(site: Site, heads: seq<Text>, h: Text, b: Text)
    requires Heads(heads + [h]) && h !in heads
    ensures InsertInBlock(site, [h], InsertInBlock(site, heads, b)) == InsertInBlock(site, heads + [h], b)
  {
    var all := heads + [h];
    assert forall g <- heads :: g in all;
    assert h in all;
    LeadingIsNone(site, all, b);
    LeadingIsNone(site, heads, b);
    match Leading(site, heads, b)
    case Some(g) =>
      LeadingIsAny(site, all, b, g);
      var b' := g + site.base + b[|g|..];
      if h + site.root <= b' {
        OnlyOneHeadLeads(site, all, g, h, b');
      }
      LeadingIsNone(site, [h], b');
    case None =>
      LeadingIsNone(site, [h], b);
      if h + site.root <= b {
        LeadingIsAny(site, all, b, h);
      }
  }

  /** The exact rule of one head. */
  function HeadRule(site: Site, h: Text): (rule: Rule)
    ensures h != [] ==> rule.Valid()
  {
    Replacing(h + site.root, h + site.base + site.root)
  }

  lemma {:induction false} RuleIsOnePass(site: Site, h: Text, text: Text, i: nat)
    requires h != [] && i <= |text|
    ensures Substitute(HeadRule(site, h), text, i) == InsertAll(site, [h], text[i..])
    decreases |text| - i
  {
    hide *;
    var rule, s := HeadRule(site, h), text[i..];
    SubstituteUnfolds(rule, text, i);
    if i == |text| {
      assert s == [];
      NothingToPass(site, [h]);
    } else {
      AtBegins(text, i, rule.source);
      OneHeadUnfolds(site, h, s);
      if At(text, i, rule.source) {
        assert s[|rule.source|..] == text[i + |rule.source|..];
        RuleIsOnePass(site, h, text, i + |rule.source|);
      } else {
        SliceFrom(text, i);
        assert s[0] == text[i] && s[1..] == text[i + 1..];
        RuleIsOnePass(site, h, text, i + 1);
      }
    }
  }

  lemma OneHeadUnfolds(site: Site, h: Text, s: Text)
    requires h != [] && s != []
    ensures HeadRule(site, h).source == h + site.root
    ensures forall text, i: nat | i <= |text| :: Rendered(HeadRule(site, h), text, i) == h + site.base + site.root
    ensures InsertAll(site, [h], s) ==
            if h + site.root <= s then h + site.base + site.root + InsertAll(site, [h], s[|h + site.root|..])
            else [s[0]] + InsertAll(site, [h], s[1..])
  {
    LeadingIsNone(site, [h], s);
  }

  /** One stage per head, in the order given. */
  function StagesOf(site: Site, heads: seq<Text>): (specs: seq<Spec>)
    requires forall h <- heads :: h != []
    ensures AllValid(specs) && |specs| == |heads|
  {
    assert forall i :: 0 <= i < |heads| ==> heads[i] in heads;
    seq(|heads|, i requires 0 <= i < |heads| => LiteralStage(HeadRule(site, heads[i])))
  }

  ghost predicate Distinct(heads: seq<Text>) {
    forall i, j :: 0 <= i < j < |heads| ==> heads[i] != heads[j]
  }

  lemma HeadsAreNotEmpty(heads: seq<Text>)
    requires Heads(heads)
    ensures forall h <- heads :: h != []
  {
  }

  /** The stages one after the other are one simultaneous pass. */
  lemma {:induction false} StagesAreOnePass(site: Site, heads: seq<Text>, body: Text)
    requires site.IsPlain() && Heads(heads) && Distinct(heads)
    ensures (forall h <- heads :: h != []) && Compose(StagesOf(site, heads), body) == InsertAll(site, heads, body)
    decreases |heads|
  {
    hide Heads, Plain, InsertAll, Substitute, InsertInBlock;
    HeadsAreNotEmpty(heads);
    if heads == [] {
      NoHeads(site, body);
    } else {
      var init, h := heads[..|heads| - 1], heads[|heads| - 1];
      assert heads == init + [h] && h in heads;
      InitOfHeads(init, h);
      StagesAreOnePass(site, init, body);
      var before := InsertAll(site, init, body);
      LastStage(site, init, h, body);
      RuleIsOnePass(site, h, before, 0);
      assert before[0..] == before;
      forall b: Text | IsBlock(b)
        ensures InsertInBlock(site, [h], InsertInBlock(site, init, b)) == InsertInBlock(site, heads, b)
      {
        OneMoreHead(site, init, h, b);
      }
      PassesCompose(site, init, [h], heads, body);
    }
  }

  lemma LastStage(site: Site, init: seq<Text>, h: Text, body: Text)
    requires (forall g <- init :: g != []) && h != []
    ensures forall g <- init + [h] :: g != []
    ensures Compose(StagesOf(site, init + [h]), body) ==
            Substitute(HeadRule(site, h), Compose(StagesOf(site, init), body), 0)
  {
    hide Substitute, HeadRule;
    var heads := init + [h];
    assert StagesOf(site, heads)[..|init|] == StagesOf(site, init);
    assert StagesOf(site, heads)[|init|] == LiteralStage(HeadRule(site, h));
  }

  lemma {:induction false} NoHeads(site: Site, s: Text)
    ensures InsertAll(site, [], s) == s
    decreases |s|
  {
    if s != [] {
      NoHeads(site, s[1..]);
    }
  }

  lemma InitOfHeads(init: seq<Text>, h: Text)
    requires Heads(init + [h]) && Distinct(init + [h])
    ensures Heads(init) && Distinct(init) && Heads([h]) && h !in init
  {
    var heads := init + [h];
    assert forall i :: 0 <= i < |init| ==> heads[i] == init[i];
    assert heads[|init|] == h;
  }

  /** Only the set of heads matters to the pass, and so to the stages: their order does not. */
  lemma {:induction false} OrderDoesNotMatter(site: Site, heads: seq<Text>, other: seq<Text>, s: Text)
    requires Heads(heads) && Heads(other) && forall h :: h in heads <==> h in other
    ensures InsertAll(site, heads, s) == InsertAll(site, other, s)
    decreases |s|
  {
    hide Heads, Leading;
    if s != [] {
      LeadingIsNone(site, heads, s);
      LeadingIsNone(site, other, s);
      match Leading(site, heads, s) {
        case Some(h) =>
          LeadingIsAny(site, other, s, h);
          HeadIsNotEmpty(heads, h);
          OrderDoesNotMatter(site, heads, other, s[|h + site.root|..]);
        case None =>
          OrderDoesNotMatter(site, heads, other, s[1..]);
      }
    }
  }

  /** The inserted path does not begin like the root itself. */
  predicate RootIsHidden(site: Site) {
    site.base == [] || !(site.root <= site.base + site.root)
  }

  lemma SecondPassOverBlock(site: Site, heads: seq<Text>, b: Text)
    requires Heads(heads) && RootIsHidden(site)
    ensures InsertInBlock(site, heads, InsertInBlock(site, heads, b)) == InsertInBlock(site, heads, b)
  {
    match Leading(site, heads, b)
    case Some(h) =>
      var b' := h + site.base + b[|h|..];
      assert b == h + b[|h|..];
      if site.base == [] {
        assert b' == b;
      } else {
        forall g <- heads ensures !(g + site.root <= b') {
          if g + site.root <= b' {
            OnlyOneHeadLeads(site, heads, h, g, b');
            RootAfterHead(site, h, b);
          }
        }
        LeadingIsNone(site, heads, b');
      }
    case None =>
  }

  lemma RootAfterHead(site: Site, h: Text, b: Text)
    requires h + site.root <= b && h + site.root <= h + site.base + b[|h|..]
    ensures site.root <= site.base + site.root
  {
    var left := b[|h|..];
    assert left[..|site.root|] == b[..|h + site.root|][|h|..] == site.root;
    var b' := h + site.base + left;
    assert b'[|h|..] == site.base + left;
    assert site.root == b'[..|h + site.root|][|h|..] == (site.base + left)[..|site.root|];
    assert site.base + left == site.base + site.root + left[|site.root|..];
  }

  lemma SecondPassChangesNothing(site: Site, heads: seq<Text>, s: Text)
    requires site.IsPlain() && Heads(heads) && RootIsHidden(site)
    ensures InsertAll(site, heads, InsertAll(site, heads, s)) == InsertAll(site, heads, s)
  {
    hide Plain, Heads, InsertAll;
    forall b: Text | IsBlock(b)
      ensures InsertInBlock(site, heads, InsertInBlock(site, heads, b)) == InsertInBlock(site, heads, b)
    {
      SecondPassOverBlock(site, heads, b);
    }
    PassesCompose(site, heads, heads, heads, s);
  }

  /** The pass is idempotent exactly when the base path keeps the root from being found again. */
  lemma PassIsIdempotentExactlyWhen(site: Site, heads: seq<Text>)
    requires site.IsPlain() && Heads(heads) && heads != []
    ensures (forall s :: InsertAll(site, heads, InsertAll(site, heads, s)) == InsertAll(site, heads, s)) <==>
            RootIsHidden(site)
  {
    hide Plain, Heads;
    if RootIsHidden(site) {
      forall s ensures InsertAll(site, heads, InsertAll(site, heads, s)) == InsertAll(site, heads, s) {
        SecondPassChangesNothing(site, heads, s);
      }
    } else {
      HeadWithRootChanges(site, heads, heads[0]);
    }
  }

  lemma HeadWithRootChanges(site: Site, heads: seq<Text>, h: Text)
    requires Heads(heads) && h in heads && !RootIsHidden(site)
    ensures var once := InsertAll(site, heads, h + site.root);
            |InsertAll(site, heads, once)| > |once|
  {
    hide Heads;
    HeadIsNotEmpty(heads, h);
    var s := h + site.root;
    LeadingIsAny(site, heads, s, h);
    NothingToPass(site, heads);
    assert s[|s|..] == [];
    var once := h + site.base + site.root;
    assert InsertAll(site, heads, s) == once + [] == once;
    assert once == h + (site.base + site.root);
    assert s <= once;
    LeadingIsAny(site, heads, once, h);
    PassGrows(site, heads, once[|s|..]);
  }

  /** No head followed by the root is left. */
  ghost predicate NoSite(site: Site, heads: seq<Text>, s: Text) {
    forall j: nat, h | h in heads :: !At(s, j, h + site.root)
  }

  lemma {:induction false} KeptWithoutSite(site: Site, heads: seq<Text>, s: Text)
    requires NoSite(site, heads, s)
    ensures InsertAll(site, heads, s) == s
    decreases |s|
  {
    if s != [] {
      forall h <- heads ensures !(h + site.root <= s) {
        assert !At(s, 0, h + site.root) && s[0..] == s;
        AtBegins(s, 0, h + site.root);
      }
      LeadingIsNone(site, heads, s);
      forall j: nat, h | h in heads ensures !At(s[1..], j, h + site.root) {
        AtShifts(s, 1, j, h + site.root);
      }
      KeptWithoutSite(site, heads, s[1..]);
    }
  }

  lemma {:induction false} SiteMakesLonger(site: Site, heads: seq<Text>, s: Text, j: nat, h: Text)
    requires site.base != [] && Heads(heads) && h in heads && At(s, j, h + site.root)
    ensures |InsertAll(site, heads, s)| > |s|
    decreases |s|
  {
    hide Heads, At, Leading;
    HeadIsNotEmpty(heads, h);
    AtSplits(s, j, h + site.root);
    LeadingIsNone(site, heads, s);
    match Leading(site, heads, s)
    case Some(g) =>
      HeadIsNotEmpty(heads, g);
      PassGrows(site, heads, s[|g + site.root|..]);
    case None =>
      AtBegins(s, j, h + site.root);
      assert s[0..] == s;
      AtShifts(s, 1, j - 1, h + site.root);
      SiteMakesLonger(site, heads, s[1..], j - 1, h);
  }

  /** With a base path to insert, the pass changes a text exactly when there is a place to insert at. */
  lemma KeptExactlyWithoutSite(site: Site, heads: seq<Text>, s: Text)
    requires site.base != [] && Heads(heads)
    ensures InsertAll(site, heads, s) == s <==> NoSite(site, heads, s)
  {
    hide Heads, At;
    if NoSite(site, heads, s) {
      KeptWithoutSite(site, heads, s);
    } else {
      var j: nat, h :| h in heads && At(s, j, h + site.root);
      SiteMakesLonger(site, heads, s, j, h);
    }
  }

  lemma {:induction false} PassGrows(site: Site, heads: seq<Text>, s: Text)
    ensures |InsertAll(site, heads, s)| >= |s|
    decreases |s|
  {
    if s != [] {
      match Leading(site, heads, s)
      case Some(h) => if h + site.root != [] { PassGrows(site, heads, s[|h + site.root|..]); }
      case None => PassGrows(site, heads, s[1..]);
    }
  }

  // The rules of the profile.

  /** Every boundary with every attribute, in the order of the source. */
  function BoundariesWithAttributes(): seq<Text> {
    seq(20, i requires 0 <= i < 20 => [BOUNDARIES[i / 4]] + ATTRIBUTES[i % 4])
  }

  const HTML_HEADS: seq<Text> := BoundariesWithAttributes()

  lemma AttributeBytes()
    ensures |ATTRIBUTES| == 4
    ensures ATTRIBUTES[0] == [0x68, 0x72, 0x65, 0x66, 0x3D, 0x22]
            && ATTRIBUTES[1] == [0x68, 0x72, 0x65, 0x66, 0x3D, 0x27]
    ensures ATTRIBUTES[2] == [0x73, 0x72, 0x63, 0x3D, 0x22] && ATTRIBUTES[3] == [0x73, 0x72, 0x63, 0x3D, 0x27]
  {
    var a, b, c, d := "href=\"", "href='", "src=\"", "src='";
    assert AsciiByte('"') == 0x22 && AsciiByte('\'') == 0x27 && AsciiByte('=') == 0x3D;
    assert AsciiByte('h') == 0x68 && AsciiByte('r') == 0x72 && AsciiByte('e') == 0x65 && AsciiByte('f') == 0x66;
    assert AsciiByte('s') == 0x73 && AsciiByte('c') == 0x63;
  }

  lemma AttributesArePlain()
    ensures forall k :: 0 <= k < 4 ==> Plain(ATTRIBUTES[k])
    ensures forall k, l :: 0 <= k < 4 && 0 <= l < 4 && ATTRIBUTES[k] <= ATTRIBUTES[l] ==> k == l
  {
    AttributeBytes();
    hide Ascii, ATTRIBUTES;
    assert ATTRIBUTES[0][5] != ATTRIBUTES[1][5] && ATTRIBUTES[2][4] != ATTRIBUTES[3][4];
    assert ATTRIBUTES[0][0] == ATTRIBUTES[1][0] != ATTRIBUTES[2][0] == ATTRIBUTES[3][0];
  }

  lemma HeadParts(i: nat)
    requires i < 20
    ensures |HTML_HEADS| == 20 && |BOUNDARIES| == 5 && |ATTRIBUTES| == 4
    ensures HTML_HEADS[i] == [BOUNDARIES[i / 4]] + ATTRIBUTES[i % 4]
  {
    AttributeBytes();
    hide ATTRIBUTES;
  }

  lemma BoundaryIsListed(k: nat)
    requires k < 5
    ensures |BOUNDARIES| == 5 && BOUNDARIES[k] in BOUNDARIES
    ensures forall l :: 0 <= l < 5 && BOUNDARIES[k] == BOUNDARIES[l] ==> k == l
  {
  }

  lemma HtmlHeadIsHead(i: nat)
    requires i < 20
    ensures |HTML_HEADS| == 20 && IsHead(HTML_HEADS[i])
  {
    AttributesArePlain();
    HeadParts(i);
    BoundaryIsListed(i / 4);
    hide ATTRIBUTES, BOUNDARIES, HTML_HEADS;
    assert HTML_HEADS[i][1..] == ATTRIBUTES[i % 4];
  }

  lemma NoHeadBeginsAnother(i: nat, j: nat)
    requires i < 20 && j < 20 && |HTML_HEADS| == 20 && HTML_HEADS[i] <= HTML_HEADS[j]
    ensures i == j
  {
    AttributesArePlain();
    HeadParts(i);
    HeadParts(j);
    BoundaryIsListed(i / 4);
    hide ATTRIBUTES, BOUNDARIES, HTML_HEADS, Plain;
    assert HTML_HEADS[i][0] == HTML_HEADS[j][0];
    assert HTML_HEADS[i][1..] == ATTRIBUTES[i % 4] && HTML_HEADS[j][1..] == ATTRIBUTES[j % 4];
    assert HTML_HEADS[i][1..] <= HTML_HEADS[j][1..];
  }

  lemma HtmlHeadsAreHeads()
    ensures Heads(HTML_HEADS) && Distinct(HTML_HEADS) && |HTML_HEADS| == 20
  {
    HeadParts(0);
    hide HTML_HEADS, IsHead;
    forall i | 0 <= i < 20 ensures IsHead(HTML_HEADS[i]) {
      HtmlHeadIsHead(i);
    }
    forall i, j | 0 <= i < 20 && 0 <= j < 20 && HTML_HEADS[i] <= HTML_HEADS[j]
      ensures i == j
    {
      NoHeadBeginsAnother(i, j);
    }
  }

  /** The twenty attribute stages of an HTML response are one pass, in this order or in any other. */
  lemma HtmlStagesAreOnePass(site: Site, order: seq<Text>, body: Text)
    requires site.IsPlain() && Heads(order) && Distinct(order) && forall h :: h in order <==> h in HTML_HEADS
    ensures (forall h <- order :: h != []) && Compose(StagesOf(site, order), body) == InsertAll(site, HTML_HEADS, body)
  {
    hide Heads, Distinct;
    HtmlHeadsAreHeads();
    StagesAreOnePass(site, order, body);
    OrderDoesNotMatter(site, order, HTML_HEADS, body);
  }

  /** Run twice, the twenty stages change nothing the second time exactly when the root stays hidden. */
  lemma HtmlStagesAreIdempotentExactlyWhen(site: Site)
    requires site.IsPlain()
    ensures forall h <- HTML_HEADS :: h != []
    ensures var stages := StagesOf(site, HTML_HEADS);
            (forall body :: Compose(stages, Compose(stages, body)) == Compose(stages, body)) <==> RootIsHidden(site)
  {
    hide Heads, Distinct, RootIsHidden, HTML_HEADS, Compose;
    HtmlHeadsAreHeads();
    HeadsAreNotEmpty(HTML_HEADS);
    var stages := StagesOf(site, HTML_HEADS);
    forall body: Text
      ensures Compose(stages, body) == InsertAll(site, HTML_HEADS, body)
    {
      StagesAreOnePass(site, HTML_HEADS, body);
    }
    PassIsIdempotentExactlyWhen(site, HTML_HEADS);
    if RootIsHidden(site) {
      forall body: Text
        ensures Compose(stages, Compose(stages, body)) == Compose(stages, body)
      {
        assert InsertAll(site, HTML_HEADS, InsertAll(site, HTML_HEADS, body)) == InsertAll(site, HTML_HEADS, body);
      }
    } else {
      var body: Text :| InsertAll(site, HTML_HEADS, InsertAll(site, HTML_HEADS, body)) !=
        InsertAll(site, HTML_HEADS, body);
      assert Compose(stages, Compose(stages, body)) != Compose(stages, body);
    }
  }
}
