/** Validation of the configured base path: percent-decoding to a fixpoint, and what it is good for. */
module BasePath {
  import opened Bytes
  import opened Utf8

  const MAX_BASE_PATH_LENGTH: nat := 1024
  const PERCENT: Byte := 0x25

  predicate IsHexDigit(b: Byte) {
    0x30 <= b <= 0x39 || 0x41 <= b <= 0x46 || 0x61 <= b <= 0x66
  }

  function HexValue(b: Byte): Byte
    requires IsHexDigit(b)
  {
    if b <= 0x39 then b - 0x30 else if b <= 0x46 then b - 0x37 else b - 0x57
  }

  predicate IsEscape(s: Text, i: nat) {
    i + 2 < |s| && s[i] == PERCENT && IsHexDigit(s[i + 1]) && IsHexDigit(s[i + 2])
  }

  /** The first decoded byte, and how many bytes it is decoded from. */
  function First(s: Text): (first: (Byte, nat))
    requires s != []
    ensures 0 < first.1 <= |s|
  {
    if IsEscape(s, 0) then (16 * HexValue(s[1]) + HexValue(s[2]), 3) else (s[0], 1)
  }

  /** One round of percent-decoding (section 2.1 of RFC 3986); a lone percent sign is left alone. */
  function Decode(s: Text): Text {
    if s == [] then [] else [First(s).0] + Decode(s[First(s).1..])
  }

  /** Every percent sign begins an escape. */
  predicate ValidEncoding(s: Text) {
    forall i :: 0 <= i < |s| && s[i] == PERCENT ==> IsEscape(s, i)
  }

  method ValidatePercentEncoding(value: Text) returns (ok: bool)
    ensures ok == ValidEncoding(value)
  {
    var index := 0;
    while index < |value|
      invariant forall i :: 0 <= i < index && i < |value| && value[i] == PERCENT ==> IsEscape(value, i)
      decreases |value| - index
    {
      if value[index] == PERCENT {
        if index + 2 >= |value| || !IsHexDigit(value[index + 1]) || !IsHexDigit(value[index + 2]) {
          return false;
        }
        index := index + 3;
      } else {
        index := index + 1;
      }
    }
    return true;
  }

  predicate IsUtf8(s: Text) {
    Tail([], s) == Some([])
  }

  /** Decoding until nothing changes, for at most `rounds` rounds; None when a round is malformed. */
  function DecodeUpTo(s: Text, rounds: nat): Option<Text>
    decreases rounds
  {
    if rounds == 0 then Some(s)
    else if !ValidEncoding(s) || !IsUtf8(Decode(s)) then None
    else if Decode(s) == s then Some(s)
    else DecodeUpTo(Decode(s), rounds - 1)
  }

  method DecodeRepeatedly(value: Text) returns (r: Option<Text>)
    ensures r == DecodeUpTo(value, MAX_BASE_PATH_LENGTH)
  {
    hide ValidEncoding, IsUtf8, Decode;
    var decoded := value;
    for round := 0 to MAX_BASE_PATH_LENGTH
      invariant DecodeUpTo(decoded, MAX_BASE_PATH_LENGTH - round) == DecodeUpTo(value, MAX_BASE_PATH_LENGTH)
    {
      var valid := ValidatePercentEncoding(decoded);
      if !valid {
        return None;
      }
      var next := Decode(decoded);
      if !IsUtf8(next) {
        return None;
      }
      if next == decoded {
        return Some(decoded);
      }
      decoded := next;
    }
    return Some(decoded);
  }

  // The cap is never reached.

  function AsciiCount(s: Text): nat {
    if s == [] then 0 else (if s[0] < 0x80 then 1 else 0) + AsciiCount(s[1..])
  }

  /** `chars().count()` of well-formed text. */
  function CharCount(s: Text): nat {
    if s == [] then 0 else (if Continuation(s[0]) then 0 else 1) + CharCount(s[1..])
  }

  lemma {:induction false} AsciiBytesAreChars(s: Text)
    ensures AsciiCount(s) <= CharCount(s)
    decreases |s|
  {
    if s != [] {
      AsciiBytesAreChars(s[1..]);
    }
  }

  lemma AsciiCountOfEscape(s: Text)
    requires IsEscape(s, 0)
    ensures AsciiCount(s) == 3 + AsciiCount(s[3..])
  {
    assert s[1..][1..] == s[2..] && s[2..][1..] == s[3..];
    assert AsciiCount(s[1..]) == 1 + AsciiCount(s[2..]) && AsciiCount(s[2..]) == 1 + AsciiCount(s[3..]);
  }

  /** A round that changes anything removes at least two ASCII bytes. */
  lemma {:induction false} DecodingRemovesAscii(s: Text)
    ensures Decode(s) == s || AsciiCount(Decode(s)) + 2 <= AsciiCount(s)
    decreases |s|
  {
    if s != [] {
      if IsEscape(s, 0) {
        AsciiCountOfEscape(s);
        DecodingRemovesAscii(s[3..]);
        var b := 16 * HexValue(s[1]) + HexValue(s[2]);
        assert Decode(s)[1..] == Decode(s[3..]);
      } else {
        DecodingRemovesAscii(s[1..]);
        assert Decode(s)[1..] == Decode(s[1..]);
        assert s == [s[0]] + s[1..];
      }
    }
  }

  /** Decoding a text in which an escape begins makes it shorter, so a fixpoint holds no percent sign. */
  lemma {:induction false} FixpointHasNoPercent(s: Text)
    requires ValidEncoding(s) && Decode(s) == s
    ensures PERCENT !in s
    decreases |s|
  {
    if s != [] {
      DecodeShrinks(s);
      DecodeShrinks(s[First(s).1..]);
      ValidRest(s);
      assert s[0] != PERCENT && First(s).1 == 1;
      assert Decode(s)[1..] == Decode(s[1..]);
      FixpointHasNoPercent(s[1..]);
    }
  }

  lemma ValidRest(s: Text)
    requires s != [] && ValidEncoding(s)
    ensures s[0] == PERCENT ==> First(s).1 == 3
    ensures ValidEncoding(s[1..])
  {
    assert s[0] == PERCENT ==> IsEscape(s, 0);
    forall i | 0 <= i < |s| - 1 && s[1..][i] == PERCENT ensures IsEscape(s[1..], i) {
      assert IsEscape(s, i + 1);
    }
  }

  lemma {:induction false} DecodeShrinks(s: Text)
    ensures |Decode(s)| <= |s|
    decreases |s|
  {
    if s != [] {
      DecodeShrinks(if IsEscape(s, 0) then s[3..] else s[1..]);
    }
  }

  /** With more rounds than half the ASCII bytes, an accepted text is a fixpoint without percent signs,
      and more rounds would change nothing. */
  lemma {:induction false} EnoughRounds(s: Text, rounds: nat, more: nat)
    requires AsciiCount(s) < 2 * rounds && rounds <= more
    ensures DecodeUpTo(s, rounds) == DecodeUpTo(s, more)
    ensures DecodeUpTo(s, rounds).Some? ==>
              var d := DecodeUpTo(s, rounds).value;
              Decode(d) == d && ValidEncoding(d) && IsUtf8(d) && PERCENT !in d
    decreases rounds
  {
    hide AsciiCount, IsUtf8, ValidEncoding, Decode;
    if ValidEncoding(s) && IsUtf8(Decode(s)) {
      if Decode(s) == s {
        FixpointHasNoPercent(s);
      } else {
        DecodingRemovesAscii(s);
        EnoughRounds(Decode(s), rounds - 1, more - 1);
      }
    }
  }

  /** For a base path that is not too long the cap of the loop plays no part: 513 rounds are always enough. */
  lemma CapIsNeverReached(s: Text)
    requires CharCount(s) <= MAX_BASE_PATH_LENGTH
    ensures forall rounds :: rounds >= 513 ==> DecodeUpTo(s, rounds) == DecodeUpTo(s, MAX_BASE_PATH_LENGTH)
    ensures DecodeUpTo(s, MAX_BASE_PATH_LENGTH).Some? ==>
              var d := DecodeUpTo(s, MAX_BASE_PATH_LENGTH).value; Decode(d) == d && PERCENT !in d
  {
    AsciiBytesAreChars(s);
    EnoughRounds(s, 513, MAX_BASE_PATH_LENGTH);
    forall rounds: nat | rounds >= 513
      ensures DecodeUpTo(s, rounds) == DecodeUpTo(s, 513)
    {
      EnoughRounds(s, 513, rounds);
    }
  }

  // What is there at one depth of decoding is there at every later one.

  function Iterate(s: Text, depth: nat): Text {
    if depth == 0 then s else Decode(Iterate(s, depth - 1))
  }

  predicate Inert(b: Byte) {
    b != PERCENT && !IsHexDigit(b)
  }

  /** No escape reaches over a byte that is not a hex digit. */
  lemma {:induction false} DecodeSplits(x: Text, y: Text)
    requires y == [] || !IsHexDigit(y[0])
    ensures Decode(x + y) == Decode(x) + Decode(y)
    decreases |x|
  {
    hide First, IsHexDigit;
    if x == [] {
      assert x + y == y;
    } else {
      FirstEndsBefore(x, y);
      var (b, n) := First(x);
      DropOfConcat(x, y, n);
      DecodeSplits(x[n..], y);
      assert [b] + (Decode(x[n..]) + Decode(y)) == [b] + Decode(x[n..]) + Decode(y);
    }
  }

  lemma FirstEndsBefore(x: Text, y: Text)
    requires x != [] && (y == [] || !IsHexDigit(y[0]))
    ensures First(x + y) == First(x)
  {
    EscapeEndsBefore(x, y);
  }

  lemma EscapeEndsBefore(x: Text, y: Text)
    requires x != [] && (y == [] || !IsHexDigit(y[0]))
    ensures IsEscape(x + y, 0) <==> IsEscape(x, 0)
  {
    if |x| < 3 && IsEscape(x + y, 0) {
      assert (x + y)[|x|] == y[0];
    }
  }

  lemma {:induction false} InertIsKept(y: Text, z: Text)
    requires forall i :: 0 <= i < |y| ==> Inert(y[i])
    ensures Decode(y + z) == y + Decode(z)
    decreases |y|
  {
    if y == [] {
      assert y + z == z;
    } else {
      assert (y + z)[1..] == y[1..] + z && (y + z)[0] == y[0];
      InertIsKept(y[1..], z);
      assert y == [y[0]] + y[1..];
      assert [y[0]] + (y[1..] + Decode(z)) == y + Decode(z);
    }
  }

  /** Bytes that take no part in escapes stay together, between what is before and what is after them. */
  lemma InertPersists(x: Text, y: Text, z: Text)
    requires y != [] && forall i :: 0 <= i < |y| ==> Inert(y[i])
    ensures Decode(x + y + z) == Decode(x) + y + Decode(z)
  {
    hide Decode, Inert;
    assert Inert(y[0]) && (y + z)[0] == y[0];
    NotHex(y[0]);
    DecodeSplits(x, y + z);
    InertIsKept(y, z);
    assert x + (y + z) == x + y + z;
    assert Decode(x) + (y + Decode(z)) == Decode(x) + y + Decode(z);
  }

  lemma NotHex(b: Byte)
    requires Inert(b)
    ensures !IsHexDigit(b) && b != PERCENT
  {
  }

  /** `contains_forbidden_character`: ? # ' " \, the control characters, and U+2028 and U+2029. */
  predicate IsForbidden(c: Text) {
    || (|c| == 1
      && (c[0] < 0x20 || c[0] == 0x7F || c[0] == 0x3F || c[0] == 0x23 || c[0] == 0x27 || c[0] == 0x22 || c[0] == 0x5C))
    || (|c| == 2 && c[0] == 0xC2 && 0x80 <= c[1] <= 0x9F)
    || (|c| == 3 && c[0] == 0xE2 && c[1] == 0x80 && (c[2] == 0xA8 || c[2] == 0xA9))
  }

  predicate ForbiddenAt(s: Text, i: nat, n: nat) {
    i + n <= |s| && IsForbidden(s[i..i + n])
  }

  predicate HasForbidden(s: Text) {
    exists i: nat, n: nat | i <= |s| && n <= 3 :: ForbiddenAt(s, i, n)
  }

  const DOUBLE_SLASH: Text := [SLASH, SLASH]

  predicate HasDoubleSlash(s: Text) {
    exists i: nat | i <= |s| :: At(s, i, DOUBLE_SLASH)
  }

  /** The parts of a text between slashes. */
  function Segments(s: Text): (parts: seq<Text>)
    decreases |s|
  {
    var i := FirstSlash(s, 0);
    if i == |s| then [s] else [s[..i]] + Segments(s[i + 1..])
  }

  function FirstSlash(s: Text, from: nat): (i: nat)
    requires from <= |s|
    ensures from <= i <= |s| && SLASH !in s[from..i] && (i < |s| ==> s[i] == SLASH)
    decreases |s| - from
  {
    if from == |s| || s[from] == SLASH then from
    else
      var i := FirstSlash(s, from + 1);
      assert s[from..i] == [s[from]] + s[from + 1..i];
      i
  }

  predicate HasDotSegment(s: Text) {
    [DOT] in Segments(s) || [DOT, DOT] in Segments(s)
  }

  /** `part` stands in `s` between slashes or the ends. */
  ghost predicate StandsAlone(s: Text, x: Text, part: Text, z: Text) {
    && s == x + part + z && SLASH !in part
    && (x == [] || x[|x| - 1] == SLASH) && (z == [] || z[0] == SLASH)
  }

  lemma {:induction false} SegmentsUnfold(s: Text)
    ensures var i := FirstSlash(s, 0);
            && s[0..i] == s[..i] && SLASH !in s[..i] && (i < |s| ==> s[i] == SLASH)
            && (i == |s| ==> s[..i] == s && s[i..] == [])
            && s == s[..i] + s[i..] && (i < |s| ==> s == s[..i + 1] + s[i + 1..])
            && Segments(s) == [s[..i]] + if i == |s| then [] else Segments(s[i + 1..])
  {
    var i := FirstSlash(s, 0);
    assert s[0..i] == s[..i] && s == s[..i] + s[i..];
    if i == |s| {
      assert s[..i] == s && [s] + [] == [s];
    } else {
      assert s == s[..i + 1] + s[i + 1..];
    }
  }

  lemma {:induction false} SegmentStandsAlone(s: Text, part: Text) returns (x: Text, z: Text)
    requires part in Segments(s)
    ensures StandsAlone(s, x, part, z)
    decreases |s|
  {
    hide Segments, FirstSlash;
    SegmentsUnfold(s);
    var i := FirstSlash(s, 0);
    if part == s[..i] {
      x, z := [], s[i..];
      assert [] + part + z == part + z;
    } else {
      x, z := SegmentStandsAlone(s[i + 1..], part);
      StandsAloneAbove(s[..i + 1], s[i + 1..], x, part, z);
      x := s[..i + 1] + x;
    }
  }

  lemma StandsAloneAbove(front: Text, s: Text, x: Text, part: Text, z: Text)
    requires StandsAlone(s, x, part, z) && front != [] && front[|front| - 1] == SLASH
    ensures StandsAlone(front + s, front + x, part, z)
  {
    Reassociate(front, x, part);
    Reassociate(front, x + part, z);
    assert x == [] ==> front + x == front;
  }

  lemma {:induction false} StandingAloneIsSegment(s: Text, x: Text, part: Text, z: Text)
    requires StandsAlone(s, x, part, z)
    ensures part in Segments(s)
    decreases |s|
  {
    hide Segments, FirstSlash, StandsAlone;
    SegmentsUnfold(s);
    if x == [] {
      FirstStandsAlone(s, part, z);
    } else {
      var i := SlashBefore(s, x, part, z);
      StandsAloneBelow(s, x, part, z, i + 1);
      StandingAloneIsSegment(s[i + 1..], x[i + 1..], part, z);
    }
  }

  lemma FirstStandsAlone(s: Text, part: Text, z: Text)
    requires StandsAlone(s, [], part, z)
    ensures |part| == FirstSlash(s, 0) && s[..|part|] == part
  {
    hide FirstSlash;
    assert s == part + z;
    FirstSlashIs(s, 0, |part|);
  }

  lemma SlashBefore(s: Text, x: Text, part: Text, z: Text) returns (i: nat)
    requires StandsAlone(s, x, part, z) && x != []
    ensures i == FirstSlash(s, 0) < |x| <= |s|
  {
    hide FirstSlash;
    i := FirstSlash(s, 0);
    assert s == x + (part + z);
    FirstSlashAtMost(s, 0, |x| - 1);
  }

  lemma {:induction false} FirstSlashIs(s: Text, from: nat, i: nat)
    requires from <= i <= |s| && (i < |s| ==> s[i] == SLASH) && forall k :: from <= k < i ==> s[k] != SLASH
    ensures FirstSlash(s, from) == i
    decreases i - from
  {
    if from < i {
      FirstSlashIs(s, from + 1, i);
    }
  }

  lemma {:induction false} FirstSlashAtMost(s: Text, from: nat, i: nat)
    requires from <= i < |s| && s[i] == SLASH
    ensures FirstSlash(s, from) <= i
    decreases i - from
  {
    if from < i {
      FirstSlashAtMost(s, from + 1, i);
    }
  }

  lemma StandsAloneBelow(s: Text, x: Text, part: Text, z: Text, n: nat)
    requires StandsAlone(s, x, part, z) && n <= |x|
    ensures StandsAlone(s[n..], x[n..], part, z)
  {
    assert s == x + (part + z) && x[n..] + part + z == x[n..] + (part + z);
    DropOfConcat(x, part + z, n);
  }

  lemma InertBytes()
    ensures Inert(SLASH) && Inert(DOT)
    ensures forall c :: IsForbidden(c) ==> c != [] && forall i :: 0 <= i < |c| ==> Inert(c[i])
  {
  }

  /** Inert bytes that occur in a text occur in its decoding. */
  lemma InertOccurs(s: Text, i: nat, y: Text) returns (j: nat)
    requires y != [] && At(s, i, y) && forall k :: 0 <= k < |y| ==> Inert(y[k])
    ensures At(Decode(s), j, y)
  {
    hide Decode, Inert;
    var x, z := s[..i], s[i + |y|..];
    assert s == x + y + z;
    InertPersists(x, y, z);
    j := |Decode(x)|;
    assert Decode(s)[j..j + |y|] == y;
  }

  lemma ForbiddenPersists(s: Text)
    requires HasForbidden(s)
    ensures HasForbidden(Decode(s))
  {
    var i: nat, n: nat :| i <= |s| && n <= 3 && ForbiddenAt(s, i, n);
    InertBytes();
    hide IsForbidden, Decode, Inert;
    var j := InertOccurs(s, i, s[i..i + n]);
    assert ForbiddenAt(Decode(s), j, n);
  }

  lemma DoubleSlashPersists(s: Text)
    requires HasDoubleSlash(s)
    ensures HasDoubleSlash(Decode(s))
  {
    var i: nat :| i <= |s| && At(s, i, DOUBLE_SLASH);
    InertBytes();
    hide Decode, Inert;
    var j := InertOccurs(s, i, DOUBLE_SLASH);
  }

  /** A dot segment stays a segment: the slashes around it are inert, too. */
  lemma StandingAlonePersists(s: Text, x: Text, part: Text, z: Text)
    requires StandsAlone(s, x, part, z) && part != []
    requires forall i :: 0 <= i < |part| ==> Inert(part[i])
    ensures StandsAlone(Decode(s), Decode(x), part, Decode(z))
  {
    hide Decode, Inert;
    InertPersists(x, part, z);
    SlashAtEndStays(x);
    SlashAtStartStays(z);
  }

  lemma SlashAtEndStays(x: Text)
    ensures x == [] ==> Decode(x) == []
    ensures x != [] && x[|x| - 1] == SLASH ==> Decode(x) != [] && Decode(x)[|Decode(x)| - 1] == SLASH
  {
    if x != [] && x[|x| - 1] == SLASH {
      var front := x[..|x| - 1];
      assert x == front + [SLASH] + [];
      InertBytes();
      InertPersists(front, [SLASH], []);
    }
  }

  lemma SlashAtStartStays(z: Text)
    ensures z == [] ==> Decode(z) == []
    ensures z != [] && z[0] == SLASH ==> Decode(z) != [] && Decode(z)[0] == SLASH
  {
    InertBytes();
  }

  lemma DotSegmentPersists(s: Text)
    requires HasDotSegment(s)
    ensures HasDotSegment(Decode(s))
  {
    hide Decode, Inert;
    InertBytes();
    var part := if [DOT] in Segments(s) then [DOT] else [DOT, DOT];
    var x, z := SegmentStandsAlone(s, part);
    StandingAlonePersists(s, x, part, z);
    StandingAloneIsSegment(Decode(s), Decode(x), part, Decode(z));
  }

  predicate Clean(s: Text) {
    !HasForbidden(s) && !HasDoubleSlash(s) && !HasDotSegment(s)
  }

  lemma {:induction false} CleanBefore(s: Text, depth: nat, later: nat)
    requires depth <= later && Clean(Iterate(s, later))
    ensures Clean(Iterate(s, depth))
    decreases later - depth
  {
    hide HasForbidden, HasDoubleSlash, HasDotSegment, Decode;
    if depth < later {
      CleanBefore(s, depth + 1, later);
      var d := Iterate(s, depth);
      assert Iterate(s, depth + 1) == Decode(d);
      if HasForbidden(d) { ForbiddenPersists(d); }
      if HasDoubleSlash(d) { DoubleSlashPersists(d); }
      if HasDotSegment(d) { DotSegmentPersists(d); }
    }
  }

  // Accepted base paths.

  datatype PathError = TooLong | NotAbsolute | Forbidden | BadEncoding | Unsafe | NotNormalized

  datatype Normalized = Accepted(path: Text) | Rejected(error: PathError)

  function TrimEnd(s: Text): Text {
    if s != [] && s[|s| - 1] == SLASH then TrimEnd(s[..|s| - 1]) else s
  }

  /** A byte that stays as it is in the path of a URL; the path percent-encode set holds the others. */
  predicate IsUrlPathByte(b: Byte) {
    0x21 <= b <= 0x7E && b !in [0x22, 0x23, 0x3C, 0x3E, 0x3F, 0x60, 0x7B, 0x7D]
  }

  /** All that is known of URLs here: a path with a byte to be percent-encoded does not stay as it is. */
  ghost predicate EncodesPaths(urlKeeps: Text -> bool) {
    forall s: Text :: urlKeeps(s) ==> forall b <- s :: IsUrlPathByte(b)
  }

  /** `urlKeeps` says whether joining a path to a URL leaves its origin and path as they are. */
  function NormalizeBasePath(input: Text, urlKeeps: Text -> bool): Normalized {
    if input == [] || input == [SLASH] then Accepted([])
    else if CharCount(input) > MAX_BASE_PATH_LENGTH then Rejected(TooLong)
    else if input[0] != SLASH || DOUBLE_SLASH <= input then Rejected(NotAbsolute)
    else if HasForbidden(input) then Rejected(Forbidden)
    else if !ValidEncoding(input) then Rejected(BadEncoding)
    else match DecodeUpTo(input, MAX_BASE_PATH_LENGTH)
         case None => Rejected(BadEncoding)
         case Some(decoded) =>
           if HasForbidden(decoded) || HasDoubleSlash(decoded) || HasDotSegment(input) || HasDotSegment(decoded)
           then Rejected(Unsafe)
           else if !urlKeeps(input) then Rejected(NotNormalized)
           else Accepted(TrimEnd(input))
  }

  /** Every round of decoding is well formed. */
  ghost predicate DecodesWell(s: Text) {
    forall depth: nat :: ValidEncoding(Iterate(s, depth)) && IsUtf8(Iterate(s, depth))
  }

  lemma {:induction false} IterateShifts(s: Text, depth: nat)
    ensures Iterate(Decode(s), depth) == Iterate(s, depth + 1)
    decreases depth
  {
    if depth > 0 {
      IterateShifts(s, depth - 1);
    }
  }

  lemma {:induction false} FixpointStays(s: Text, depth: nat)
    requires Decode(s) == s
    ensures Iterate(s, depth) == s
    decreases depth
  {
    if depth > 0 {
      FixpointStays(s, depth - 1);
    }
  }

  lemma DecodesWellNext(s: Text)
    requires IsUtf8(s)
    ensures DecodesWell(s) <==> ValidEncoding(s) && DecodesWell(Decode(s))
  {
    hide ValidEncoding, IsUtf8, Decode;
    assert Iterate(s, 0) == s;
    forall depth: nat ensures Iterate(Decode(s), depth) == Iterate(s, depth + 1) {
      IterateShifts(s, depth);
    }
    if ValidEncoding(s) && DecodesWell(Decode(s)) {
      forall depth: nat ensures ValidEncoding(Iterate(s, depth)) && IsUtf8(Iterate(s, depth)) {
        if depth > 0 {
          assert Iterate(s, depth) == Iterate(Decode(s), depth - 1);
        }
      }
    }
    if DecodesWell(s) {
      forall depth: nat
        ensures ValidEncoding(Iterate(Decode(s), depth)) && IsUtf8(Iterate(Decode(s), depth))
      {
        assert Iterate(Decode(s), depth) == Iterate(s, depth + 1);
      }
    }
  }

  lemma DecodesWellNow(s: Text)
    requires DecodesWell(s)
    ensures ValidEncoding(s) && IsUtf8(s)
  {
    hide ValidEncoding, IsUtf8;
    assert Iterate(s, 0) == s;
  }

  /** Decoding succeeds exactly when every round is well formed, and gives one of the rounds. */
  lemma {:induction false} DecodingSucceedsWhen(s: Text, rounds: nat) returns (depth: nat)
    requires IsUtf8(s) && AsciiCount(s) < 2 * rounds
    ensures DecodeUpTo(s, rounds).Some? <==> DecodesWell(s)
    ensures DecodeUpTo(s, rounds).Some? ==> DecodeUpTo(s, rounds).value == Iterate(s, depth)
    decreases rounds
  {
    hide ValidEncoding, IsUtf8, AsciiCount, DecodesWell, Decode;
    depth := 0;
    DecodesWellNext(s);
    if ValidEncoding(s) {
      if Decode(s) == s {
        FixpointIsWell(s);
      } else if IsUtf8(Decode(s)) {
        DecodingRemovesAscii(s);
        depth := DecodingSucceedsWhen(Decode(s), rounds - 1);
        IterateShifts(s, depth);
        depth := depth + 1;
      } else if DecodesWell(Decode(s)) {
        DecodesWellNow(Decode(s));
      }
    }
  }

  lemma FixpointIsWell(s: Text)
    requires ValidEncoding(s) && IsUtf8(s) && Decode(s) == s
    ensures DecodesWell(s)
  {
    hide ValidEncoding, IsUtf8, Decode;
    forall depth: nat ensures Iterate(s, depth) == s {
      FixpointStays(s, depth);
    }
  }

  ghost predicate CleanAtEveryDepth(s: Text) {
    forall depth: nat :: Clean(Iterate(s, depth))
  }

  /** The last round decides for all of them. */
  lemma CleanWhenTheLastIs(s: Text, last: nat)
    requires Decode(Iterate(s, last)) == Iterate(s, last)
    ensures Clean(Iterate(s, last)) <==> CleanAtEveryDepth(s)
  {
    hide Clean, Decode;
    if Clean(Iterate(s, last)) {
      forall depth: nat ensures Clean(Iterate(s, depth)) {
        if depth <= last {
          CleanBefore(s, depth, last);
        } else {
          IterateFrom(s, last, depth);
        }
      }
    }
  }

  lemma {:induction false} IterateFrom(s: Text, last: nat, depth: nat)
    requires Decode(Iterate(s, last)) == Iterate(s, last) && last <= depth
    ensures Iterate(s, depth) == Iterate(s, last)
    decreases depth
  {
    if last < depth {
      IterateFrom(s, last, depth - 1);
    }
  }

  /** Checking the given form and the fully decoded one amounts to checking every depth of decoding. */
  lemma AcceptedExactlyWhen(input: Text, urlKeeps: Text -> bool)
    requires IsUtf8(input) && input != [] && input != [SLASH]
    ensures NormalizeBasePath(input, urlKeeps).Accepted? <==>
            && CharCount(input) <= MAX_BASE_PATH_LENGTH && input[0] == SLASH && urlKeeps(input)
            && DecodesWell(input) && CleanAtEveryDepth(input)
  {
    hide HasForbidden, HasDoubleSlash, HasDotSegment, ValidEncoding, IsUtf8, Decode, DecodesWell, CleanAtEveryDepth,
      CharCount;
    if CharCount(input) <= MAX_BASE_PATH_LENGTH && input[0] == SLASH {
      AsciiBytesAreChars(input);
      var depth := DecodingSucceedsWhen(input, MAX_BASE_PATH_LENGTH);
      CapIsNeverReached(input);
      if DecodesWell(input) {
        DecodesWellNow(input);
        CleanWhenTheLastIs(input, depth);
        if CleanAtEveryDepth(input) {
          CleanAtStart(input);
        }
      }
    }
  }

  lemma CleanAtStart(input: Text)
    requires CleanAtEveryDepth(input)
    ensures !HasForbidden(input) && !HasDotSegment(input) && !(DOUBLE_SLASH <= input)
  {
    hide HasForbidden, HasDotSegment;
    assert Iterate(input, 0) == input && Clean(Iterate(input, 0));
    AtBegins(input, 0, DOUBLE_SLASH);
    assert input[0..] == input;
  }

  /** Adding a slash does not hide anything. */
  lemma {:induction false} CleanWithoutSlash(r: Text, depth: nat)
    ensures Iterate(r + [SLASH], depth) == Iterate(r, depth) + [SLASH]
    decreases depth
  {
    if depth > 0 {
      CleanWithoutSlash(r, depth - 1);
      var d := Iterate(r, depth - 1);
      InertBytes();
      assert Decode([]) == [];
      hide Decode, Inert;
      InertPersists(d, [SLASH], []);
      assert d + [SLASH] + [] == d + [SLASH] && Decode(d) + [SLASH] + [] == Decode(d) + [SLASH];
    }
  }

  lemma CleanPrefix(d: Text)
    requires Clean(d + [SLASH])
    ensures Clean(d)
  {
    hide IsForbidden, Segments, StandsAlone;
    var s := d + [SLASH];
    if HasForbidden(d) {
      var i: nat, n: nat :| i <= |d| && n <= 3 && ForbiddenAt(d, i, n);
      assert s[i..i + n] == d[i..i + n];
      assert ForbiddenAt(s, i, n);
    }
    if HasDoubleSlash(d) {
      var i: nat :| i <= |d| && At(d, i, DOUBLE_SLASH);
      AtIsStable(d, [SLASH], i, DOUBLE_SLASH);
    }
    if HasDotSegment(d) {
      var part := if [DOT] in Segments(d) then [DOT] else [DOT, DOT];
      var x, z := SegmentStandsAlone(d, part);
      StandsAloneBeforeSlash(d, x, part, z);
      StandingAloneIsSegment(s, x, part, z + [SLASH]);
    }
  }

  lemma StandsAloneBeforeSlash(d: Text, x: Text, part: Text, z: Text)
    requires StandsAlone(d, x, part, z)
    ensures StandsAlone(d + [SLASH], x, part, z + [SLASH])
  {
    assert d + [SLASH] == x + part + (z + [SLASH]);
  }

  /** The base path that is used: absolute, without a slash at the end, and clean at every depth of decoding. */
  lemma AcceptedPathIsSafe(input: Text, urlKeeps: Text -> bool)
    requires IsUtf8(input) && input != [] && input != [SLASH]
    requires NormalizeBasePath(input, urlKeeps).Accepted?
    ensures var path := NormalizeBasePath(input, urlKeeps).path;
            && path != [] && path[0] == SLASH && path[|path| - 1] != SLASH
            && (input == path || input == path + [SLASH])
            && CleanAtEveryDepth(path)
  {
    hide *;
    AcceptedExactlyWhen(input, urlKeeps);
    AcceptedIsTrimmed(input, urlKeeps);
    if input[|input| - 1] == SLASH {
      var front := input[..|input| - 1];
      assert input == front + [SLASH] && front != [];
      NoDoubleSlashAtEnd(front);
      CleanWithoutLastSlash(front);
      TrimOneSlash(front);
    }
  }

  lemma AcceptedIsTrimmed(input: Text, urlKeeps: Text -> bool)
    requires input != [] && input != [SLASH] && NormalizeBasePath(input, urlKeeps).Accepted?
    ensures NormalizeBasePath(input, urlKeeps).path == TrimEnd(input)
    ensures input[|input| - 1] != SLASH ==> TrimEnd(input) == input
  {
  }

  lemma TrimOneSlash(front: Text)
    requires front != [] && front[|front| - 1] != SLASH
    ensures TrimEnd(front + [SLASH]) == front
  {
    assert (front + [SLASH])[..|front|] == front;
    assert TrimEnd(front) == front;
  }

  lemma NoDoubleSlashAtEnd(front: Text)
    requires front != [] && CleanAtEveryDepth(front + [SLASH])
    ensures front[|front| - 1] != SLASH
  {
    var input := front + [SLASH];
    assert Iterate(input, 0) == input && Clean(Iterate(input, 0));
    if front[|front| - 1] == SLASH {
      assert At(input, |input| - 2, DOUBLE_SLASH);
    }
  }

  lemma CleanWithoutLastSlash(front: Text)
    requires CleanAtEveryDepth(front + [SLASH])
    ensures CleanAtEveryDepth(front)
  {
    hide Clean, Iterate;
    forall depth: nat ensures Clean(Iterate(front, depth)) {
      CleanWithoutSlash(front, depth);
      CleanPrefix(Iterate(front, depth));
    }
  }

  lemma {:induction false} TrimEndIsPrefix(s: Text)
    ensures TrimEnd(s) <= s
    decreases |s|
  {
    if s != [] && s[|s| - 1] == SLASH {
      TrimEndIsPrefix(s[..|s| - 1]);
    }
  }

  /** A byte that an accepted base path can hold. */
  predicate IsBasePathByte(b: Byte) {
    IsUrlPathByte(b) && b != SINGLE_QUOTE && b != BACKSLASH
  }

  /** An accepted base path is empty or absolute, and holds no quote, backtick, backslash or whitespace. */
  lemma AcceptedPathIsPlain(input: Text, urlKeeps: Text -> bool)
    requires EncodesPaths(urlKeeps) && NormalizeBasePath(input, urlKeeps).Accepted?
    ensures var path := NormalizeBasePath(input, urlKeeps).path;
            (path == [] || path[0] == SLASH) && forall b <- path :: IsBasePathByte(b)
  {
    hide ValidEncoding, DecodeUpTo, HasDoubleSlash, HasDotSegment, CharCount, HasForbidden;
    TrimEndIsPrefix(input);
    if input != [] && input != [SLASH] {
      forall b | b in input ensures IsBasePathByte(b) {
        AcceptedByteIsNotForbidden(input, b);
      }
      var path := TrimEnd(input);
      assert input[..|path|] == path;
    }
  }

  lemma AcceptedByteIsNotForbidden(s: Text, b: Byte)
    requires !HasForbidden(s) && b in s
    ensures b != SINGLE_QUOTE && b != BACKSLASH
  {
    var i :| 0 <= i < |s| && s[i] == b;
    assert s[i..i + 1] == [b];
    assert !ForbiddenAt(s, i, 1);
  }

  /** Letters, digits and hyphens. */
  predicate IsNameByte(b: Byte) {
    0x41 <= b <= 0x5A || 0x61 <= b <= 0x7A || 0x30 <= b <= 0x39 || b == 0x2D
  }

  /** Names after slashes: the base paths in which nothing needs checking. */
  predicate IsSimplePath(s: Text) {
    && s != [] && |s| <= MAX_BASE_PATH_LENGTH && s[0] == SLASH && s[|s| - 1] != SLASH
    && (forall b <- s :: b == SLASH || IsNameByte(b))
    && (forall i :: 0 <= i < |s| - 1 && s[i] == SLASH ==> s[i + 1] != SLASH)
  }

  lemma SimplePathIsAccepted(s: Text, urlKeeps: Text -> bool)
    requires IsSimplePath(s) && urlKeeps(s)
    ensures NormalizeBasePath(s, urlKeeps) == Accepted(s)
  {
    CharCountIsBounded(s);
    assert forall i :: 0 <= i < |s| ==> s[i] in s;
    AsciiIsAccepted(s);
    assert PERCENT !in s;
    DecodesToItself(s);
    SimplePathIsClean(s);
    CleanFixpointIsAccepted(s, urlKeeps);
  }

  lemma CleanFixpointIsAccepted(s: Text, urlKeeps: Text -> bool)
    requires |s| > 1 && s[0] == SLASH && s[|s| - 1] != SLASH && CharCount(s) <= MAX_BASE_PATH_LENGTH && urlKeeps(s)
    requires ValidEncoding(s) && IsUtf8(s) && Decode(s) == s && Clean(s)
    ensures NormalizeBasePath(s, urlKeeps) == Accepted(s)
  {
    hide HasForbidden, HasDotSegment, CharCount, Decode, ValidEncoding, IsUtf8;
    assert DecodeUpTo(s, MAX_BASE_PATH_LENGTH) == Some(s);
    assert !At(s, 0, DOUBLE_SLASH) && s[0..] == s;
    AtBegins(s, 0, DOUBLE_SLASH);
  }

  lemma {:induction false} CharCountIsBounded(s: Text)
    ensures CharCount(s) <= |s|
    decreases |s|
  {
    if s != [] {
      CharCountIsBounded(s[1..]);
    }
  }

  lemma {:induction false} DecodesToItself(s: Text)
    requires PERCENT !in s
    ensures Decode(s) == s
    decreases |s|
  {
    if s != [] {
      DecodesToItself(s[1..]);
      assert s[0] != PERCENT && s == [s[0]] + s[1..];
    }
  }

  lemma SimplePathIsClean(s: Text)
    requires IsSimplePath(s)
    ensures Clean(s)
  {
    hide Segments, FirstSlash, HasDotSegment;
    forall i: nat, n: nat | i <= |s| && n <= 3 ensures !ForbiddenAt(s, i, n) {
      if i + n <= |s| && n > 0 {
        assert s[i..i + n][0] == s[i] && s[i] in s;
      }
    }
    forall i: nat | i <= |s| ensures !At(s, i, DOUBLE_SLASH) {
      if i + 2 <= |s| {
        assert s[i..i + 2] == [s[i], s[i + 1]];
      }
    }
    DotSegmentHoldsDot(s);
  }

  lemma DotSegmentHoldsDot(s: Text)
    ensures HasDotSegment(s) ==> DOT in s
  {
    hide Segments;
    if HasDotSegment(s) {
      var part := if [DOT] in Segments(s) then [DOT] else [DOT, DOT];
      var x, z := SegmentStandsAlone(s, part);
      assert s[|x|] == part[0] == DOT;
    }
  }

  /** What the configuration can take as base path. */
  ghost predicate IsBasePath(path: Text) {
    exists input: Text, urlKeeps: Text -> bool ::
      EncodesPaths(urlKeeps) && NormalizeBasePath(input, urlKeeps) == Accepted(path)
  }

  lemma BasePathIsPlain(path: Text)
    requires IsBasePath(path)
    ensures (path == [] || path[0] == SLASH) && IsUtf8(path) && forall b <- path :: IsBasePathByte(b)
  {
    hide NormalizeBasePath, EncodesPaths, IsUrlPathByte;
    var input: Text, urlKeeps: Text -> bool :|
      EncodesPaths(urlKeeps) && NormalizeBasePath(input, urlKeeps) == Accepted(path);
    AcceptedPathIsPlain(input, urlKeeps);
    forall i | 0 <= i < |path| ensures path[i] < 128 {
      assert path[i] in path;
      UrlPathBytesAreAscii(path[i]);
    }
    AsciiIsAccepted(path);
  }

  lemma UrlPathBytesAreAscii(b: Byte)
    requires IsUrlPathByte(b)
    ensures 0x21 <= b < 128 && b != BACKTICK && b != DOUBLE_QUOTE
  {
  }

  /** A simple path is accepted by every URL library that keeps it. */
  lemma SimplePathIsBasePath(path: Text)
    requires IsSimplePath(path)
    ensures forall urlKeeps: Text -> bool :: urlKeeps(path) ==> NormalizeBasePath(path, urlKeeps) == Accepted(path)
    ensures IsBasePath(path)
  {
    hide IsSimplePath, NormalizeBasePath;
    forall urlKeeps: Text -> bool | urlKeeps(path)
      ensures NormalizeBasePath(path, urlKeeps) == Accepted(path)
    {
      SimplePathIsAccepted(path, urlKeeps);
    }
    SimplePathBytes(path);
    var only := (s: Text) => s == path;
    assert EncodesPaths(only);
    assert NormalizeBasePath(path, only) == Accepted(path);
  }

  lemma SimplePathBytes(path: Text)
    requires IsSimplePath(path)
    ensures forall b <- path :: IsUrlPathByte(b)
  {
  }

  /** A base path begins with one slash and goes on with something else. */
  lemma BasePathBegins(path: Text)
    requires IsBasePath(path) && path != []
    ensures |path| > 1 && path[0] == SLASH && path[1] != SLASH
  {
    hide HasForbidden, HasDoubleSlash, HasDotSegment, ValidEncoding, DecodeUpTo, CharCount, EncodesPaths;
    var input: Text, urlKeeps: Text -> bool :|
      EncodesPaths(urlKeeps) && NormalizeBasePath(input, urlKeeps) == Accepted(path);
    assert input[..2] == [input[0], input[1]];
    TrimEndKeeps(input);
    TrimEndIsPrefix(input);
    assert path[1] == input[1];
  }

  lemma {:induction false} TrimEndKeeps(s: Text)
    requires |s| > 1 && s[1] != SLASH
    ensures |TrimEnd(s)| > 1
    decreases |s|
  {
    if s[|s| - 1] == SLASH {
      TrimEndKeeps(s[..|s| - 1]);
    }
  }
}
