/** Numbers as bytes, apart from everything else. */
module SmallNumbers {
  lemma SmallNumberFits(n: int)
    requires 0 <= n < 256
    ensures (n as bv8) as int == n
  {
  }

  lemma NumberOf(b: bv8) returns (n: int)
    ensures n == b as int && 0 <= n < 256 && n as bv8 == b
  {
    n := b as int;
  }

  lemma SameOrder(a: bv8, b: bv8)
    ensures a <= b <==> a as int <= b as int
  {
  }

  lemma Between(low: bv8, b: bv8, high: bv8)
    ensures low <= b <= high <==> low as int <= b as int <= high as int
  {
    SameOrder(low, b);
    SameOrder(b, high);
  }
}

/** Byte strings, occurrences of one in another, and the outcome types every module uses. */
module Bytes {
  import opened SmallNumbers

  type Byte = bv8
  type Text = seq<Byte>

  const SLASH: Byte := 0x2F
  const DOT: Byte := 0x2E
  const SINGLE_QUOTE: Byte := 0x27
  const DOUBLE_QUOTE: Byte := 0x22
  const BACKTICK: Byte := 0x60
  const BACKSLASH: Byte := 0x5C

  /** Space, tab, line feed, form feed, carriage return. */
  predicate IsWhitespace(b: Byte) {
    b == 0x20 || b == 0x09 || b == 0x0A || b == 0x0C || b == 0x0D
  }

  /** The width of the `usize` counters. */
  const USIZE_MAX: nat := 0xFFFF_FFFF_FFFF_FFFF

  datatype Option<+T> = None | Some(value: T)

  datatype RewriteError =
    | EmptyRules
    | EmptySource
    | InvalidReplacement
    | TooLarge(limit: nat)
    | InvalidUtf8
    | AlreadyFinished

  datatype Result<+T> = Ok(value: T) | Err(error: RewriteError)

  /** The byte of an ASCII character; any other character becomes '?'. */
  function AsciiByte(c: char): (b: Byte)
    ensures b < 128
  {
    if c < 128 as char then c as int as bv8 else 63
  }

  /** Different ASCII characters have different bytes. */
  lemma AsciiByteIsCode(c: char)
    ensures AsciiByte(c) as int == if c < 128 as char then c as int else 63
  {
    if c < 128 as char {
      SmallNumberFits(c as int);
    }
  }

  lemma InRange(low: char, c: char, high: char)
    requires low <= high < 128 as char && c < 128 as char
    ensures AsciiByte(low) <= AsciiByte(c) <= AsciiByte(high) <==> low <= c <= high
  {
    AsciiByteIsCode(low);
    AsciiByteIsCode(c);
    AsciiByteIsCode(high);
    SmallNumbers.Between(AsciiByte(low), AsciiByte(c), AsciiByte(high));
  }

  lemma AsciiByteIsSlash(c: char)
    ensures AsciiByte(c) == SLASH <==> c == '/'
  {
    AsciiByteIsCode(c);
    AsciiByteIsCode('/');
  }

  /** The bytes of an ASCII literal. */
  function Ascii(s: string): (t: Text)
    ensures |t| == |s|
    ensures forall i :: 0 <= i < |t| ==> t[i] == AsciiByte(s[i])
  {
    seq(|s|, i requires 0 <= i < |s| => AsciiByte(s[i]))
  }

  /** `pattern` occurs in `text` at index `i`. */
  predicate At(text: Text, i: nat, pattern: Text) {
    i + |pattern| <= |text| && text[i..i + |pattern|] == pattern
  }

  predicate Occurs(pattern: Text, text: Text) {
    exists o :: 0 <= o <= |text| && At(text, o, pattern)
  }

  predicate EndsWith(text: Text, pattern: Text) {
    |pattern| <= |text| && text[|text| - |pattern|..] == pattern
  }

  /** The last `n` bytes of `text`, or all of it when it is shorter. */
  function Last(text: Text, n: nat): Text {
    if |text| <= n then text else text[|text| - n..]
  }

  /** `found` is the leftmost occurrence of `needle` at or after `from`. */
  ghost predicate IsLeftmost(haystack: Text, from: nat, needle: Text, found: Option<nat>) {
    match found
    case None => forall j: nat :: from <= j ==> !At(haystack, j, needle)
    case Some(p) => from <= p && At(haystack, p, needle) && forall j: nat :: from <= j < p ==> !At(haystack, j, needle)
  }

  /** `memmem`. */
  method Find(haystack: Text, from: nat, needle: Text) returns (found: Option<nat>)
    requires from <= |haystack|
    ensures IsLeftmost(haystack, from, needle, found)
    ensures found.Some? ==>
            from <= found.value && found.value + |needle| <= |haystack| && At(haystack, found.value, needle)
  {
    var i := from;
    while i + |needle| <= |haystack|
      invariant from <= i
      invariant forall j: nat :: from <= j < i ==> !At(haystack, j, needle)
      decreases |haystack| - i
    {
      if haystack[i..i + |needle|] == needle {
        return Some(i);
      }
      i := i + 1;
    }
    return None;
  }

  /** An occurrence inside `text` is not affected by what follows `text`. */
  lemma AtIsStable(text: Text, rest: Text, i: nat, pattern: Text)
    requires i + |pattern| <= |text|
    ensures At(text + rest, i, pattern) == At(text, i, pattern)
  {
    assert (text + rest)[i..i + |pattern|] == text[i..i + |pattern|];
  }

  /** The first of the occurrences up to `m`. */
  lemma {:induction false} FirstOccurrence(text: Text, m: nat, s: Text) returns (first: nat)
    requires At(text, m, s)
    ensures first <= m && At(text, first, s) && forall j: nat :: j < first ==> !At(text, j, s)
    decreases m
  {
    first := m;
    if j: nat :| j < m && At(text, j, s) {
      first := FirstOccurrence(text, j, s);
    }
  }

  lemma AtSplits(text: Text, i: nat, pattern: Text)
    requires At(text, i, pattern)
    ensures i + |pattern| <= |text| && text[i..] == pattern + text[i + |pattern|..]
  {
  }

  /** Occurrences in a suffix are the occurrences in the whole, shifted. */
  lemma AtShifts(text: Text, base: nat, i: nat, pattern: Text)
    requires base <= |text|
    ensures At(text[base..], i, pattern) == At(text, base + i, pattern)
  {
    if base + i + |pattern| <= |text| {
      assert text[base..][i..i + |pattern|] == text[base + i..base + i + |pattern|];
    }
  }

  lemma PrefixOfCons(v: Text, b: Byte, rest: Text)
    requires v != []
    ensures v <= [b] + rest <==> v[0] == b && v[1..] <= rest
  {
    if v[0] == b && v[1..] <= rest {
      assert v == [b] + v[1..];
    }
    if v <= [b] + rest {
      assert v[1..] == ([b] + rest)[..|v|][1..] == rest[..|v| - 1];
    }
  }

  lemma PrefixWithin(v: Text, a: Text, b: Text)
    requires |v| <= |a|
    ensures v <= a + b <==> v <= a
  {
    assert (a + b)[..|v|] == a[..|v|];
  }

  lemma AtIsWithin(text: Text, o: nat, s: Text)
    ensures At(text, o, s) ==> o + |s| <= |text|
  {
  }

  lemma AtConcat(text: Text, j: nat, s: Text, t: Text)
    ensures At(text, j, s + t) <==> At(text, j, s) && At(text, j + |s|, t)
  {
    if j + |s + t| <= |text| {
      assert text[j..j + |s + t|] == text[j..j + |s|] + text[j + |s|..j + |s| + |t|];
      assert At(text, j, s + t) ==> text[j..j + |s|] == (s + t)[..|s|] && text[j + |s|..j + |s + t|] == (s + t)[|s|..];
    }
  }

  lemma AtHasByte(t: Text, j: nat, p: Text, k: nat)
    requires At(t, j, p) && j <= k < j + |p|
    ensures k < |t| && t[k] == p[k - j]
  {
    assert t[j..j + |p|][k - j] == t[k];
  }

  lemma SliceStep(text: Text, i: nat, m: nat)
    requires i < m <= |text|
    ensures text[i..m] == [text[i]] + text[i + 1..m]
  {
  }

  lemma SliceFrom(text: Text, i: nat)
    requires i < |text|
    ensures text[i..] == [text[i]] + text[i + 1..] && text[..i + 1] == text[..i] + [text[i]]
  {
  }

  lemma EndsWithMore(text: Text, end: Text, b: Byte)
    requires EndsWith(text, end)
    ensures EndsWith(text + [b], end + [b])
  {
  }

  lemma AtBegins(text: Text, i: nat, pattern: Text)
    requires i <= |text|
    ensures At(text, i, pattern) <==> pattern <= text[i..]
  {
    if i + |pattern| <= |text| {
      assert text[i..][..|pattern|] == text[i..i + |pattern|];
    }
  }

  lemma DropOfConcat(a: Text, b: Text, n: nat)
    requires n <= |a|
    ensures (a + b)[n..] == a[n..] + b
  {
  }

  lemma TakeOfConcat(a: Text, b: Text, n: nat)
    requires n <= |a|
    ensures (a + b)[..n] == a[..n]
  {
  }

  lemma Reassociate(a: Text, b: Text, c: Text)
    ensures a + b + c == a + (b + c)
  {
  }

  lemma PrefixOfPrefix(a: Text, b: Text, n: nat, k: nat)
    requires k <= n <= |a| && n <= |b| && a[..n] == b[..n]
    ensures a[..k] == b[..k]
  {
    assert a[..n][..k] == b[..n][..k];
  }

  lemma PrefixCases(v: Text, a: Text, b: Text)
    requires v <= a + b
    ensures v <= a || a <= v
  {
    if |v| <= |a| {
      PrefixWithin(v, a, b);
    } else {
      assert v[..|a|] == (a + b)[..|a|] == a;
    }
  }

  lemma EndsAfter(text: Text, i: nat, v: Text)
    requires At(text, i, v)
    ensures i + |v| <= |text| && EndsWith(text[..i + |v|], v)
  {
  }

  lemma EndOfEnd(text: Text, v: Text, k: nat)
    requires EndsWith(text, v) && k <= |v|
    ensures EndsWith(text, v[|v| - k..])
  {
  }

  lemma OccursAt(text: Text, o: nat, v: Text)
    requires At(text, o, v)
    ensures Occurs(v, text)
  {
  }

  lemma OccursSomewhere(v: Text, text: Text) returns (o: nat)
    requires Occurs(v, text)
    ensures At(text, o, v)
  {
    o :| 0 <= o <= |text| && At(text, o, v);
  }

  lemma OccursAcross(text: Text, i: nat, v: Text, k: nat)
    requires k <= |v| && i <= |text| && EndsWith(text[..i], v[..k]) && v[k..] <= text[i..]
    ensures i >= k && At(text, i - k, v) && Occurs(v, text)
  {
    hide Occurs;
    AtBegins(text, i, v[k..]);
    assert text[i - k..i] == text[..i][i - k..] == v[..k];
    AtConcat(text, i - k, v[..k], v[k..]);
    assert v[..k] + v[k..] == v;
    OccursAt(text, i - k, v);
  }

  lemma OccursInRest(front: Text, rest: Text, o: nat, v: Text)
    requires |front| <= o && At(front + rest, o, v)
    ensures Occurs(v, rest)
  {
    assert (front + rest)[|front|..] == rest;
    AtShifts(front + rest, |front|, o - |front|, v);
    OccursAt(rest, o - |front|, v);
  }

  lemma OccursLater(front: Text, text: Text, v: Text)
    requires At(text, 0, v)
    ensures Occurs(v, front + text)
  {
    AtShifts(front + text, |front|, 0, v);
    assert (front + text)[|front|..] == text;
    OccursAt(front + text, |front|, v);
  }

  lemma EndsWithConcat(a: Text, b: Text)
    ensures EndsWith(a + b, b)
  {
  }

  lemma WholeIsAt(text: Text)
    ensures At(text, 0, text)
  {
    assert text[0..|text|] == text;
  }

  lemma LastByteOfEnd(text: Text, end: Text)
    requires EndsWith(text, end) && end != []
    ensures |text| >= |end| && text[|text| - 1] == end[|end| - 1]
  {
  }

  lemma BehindFront(text: Text, d: nat, a: Text, b: Text)
    requires d <= |text| && a + b <= text[d..]
    ensures At(text, d + |a|, b)
  {
    AtBegins(text, d, a + b);
    AtConcat(text, d, a, b);
  }

  lemma SliceOfAt(text: Text, i: nat, v: Text)
    requires At(text, i, v)
    ensures i + |v| <= |text| && text[i..i + |v|] == v
  {
  }

  lemma ThreeParts(text: Text, i: nat, c: nat, e: nat, n: nat)
    requires i <= c <= e <= n <= |text|
    ensures text[i..n] == text[i..c] + text[c..e] + text[e..n]
  {
  }

  lemma SameBegin(a: Text, b: Text, n: nat, o: nat, v: Text)
    requires n <= |a| && n <= |b| && a[..n] == b[..n] && o + |v| <= n && At(b, o, v)
    ensures At(a, o, v) && a[..o] == b[..o]
  {
    assert a[o..o + |v|] == a[..n][o..o + |v|] == b[o..o + |v|];
    PrefixOfPrefix(a, b, n, o);
  }

  lemma EndsWithLonger(a: Text, b: Text, p: Text)
    requires EndsWith(b, p)
    ensures EndsWith(a + b, p)
  {
    assert (a + b)[|a + b| - |p|..] == b[|b| - |p|..];
  }

  lemma LastOfConcat(a: Text, b: Text, c: Text)
    requires c != []
    ensures var x := a + (b + c); x != [] && x[|x| - 1] == c[|c| - 1]
  {
  }

  lemma EndsWithNothing(text: Text)
    ensures EndsWith(text, [])
  {
  }

  lemma EndsWithItself(text: Text)
    ensures EndsWith(text, text)
  {
  }
}
