/** UTF-8 well-formedness (section 4 of RFC 3629) and the byte-at-a-time automaton that decides it. */
module Utf8 {
  import opened Bytes

  predicate Continuation(b: Byte) {
    0x80 <= b <= 0xBF
  }

  /** One encoded character: the four productions UTF8-1 to UTF8-4 of section 4 of RFC 3629. */
  predicate IsChar(c: Text) {
    || (|c| == 1 && c[0] <= 0x7F)
    || (|c| == 2 && 0xC2 <= c[0] <= 0xDF && Continuation(c[1]))
    || (|c| == 3 && Continuation(c[2]) && (
            || (c[0] == 0xE0 && 0xA0 <= c[1] <= 0xBF)
            || (0xE1 <= c[0] <= 0xEC && Continuation(c[1]))
            || (c[0] == 0xED && 0x80 <= c[1] <= 0x9F)
            || (0xEE <= c[0] <= 0xEF && Continuation(c[1]))))
    || (|c| == 4 && Continuation(c[2]) && Continuation(c[3]) && (
            || (c[0] == 0xF0 && 0x90 <= c[1] <= 0xBF)
            || (0xF1 <= c[0] <= 0xF3 && Continuation(c[1]))
            || (c[0] == 0xF4 && 0x80 <= c[1] <= 0x8F)))
  }

  function Flatten(parts: seq<Text>): Text {
    if parts == [] then [] else parts[0] + Flatten(parts[1..])
  }

  /** Text that is a sequence of encoded characters. */
  ghost predicate WellFormed(s: Text) {
    exists chars: seq<Text> :: (forall c <- chars :: IsChar(c)) && Flatten(chars) == s
  }

  /** Text that some continuation completes to well-formed text. */
  ghost predicate Completable(s: Text) {
    exists rest: Text :: WellFormed(s + rest)
  }

  predicate IsLead(b: Byte) {
    0xC2 <= b <= 0xF4
  }

  /** `utf8_sequence_len`; its callers only ever pass a lead byte. */
  function SequenceLength(lead: Byte): (n: nat)
    requires IsLead(lead)
    ensures 2 <= n <= 4
  {
    if lead <= 0xDF then 2 else if lead <= 0xEF then 3 else 4
  }

  predicate SecondByteFits(lead: Byte, b: Byte) {
    if lead == 0xE0 then 0xA0 <= b <= 0xBF
    else if lead == 0xED then 0x80 <= b <= 0x9F
    else if lead == 0xF0 then 0x90 <= b <= 0xBF
    else if lead == 0xF4 then 0x80 <= b <= 0x8F
    else Continuation(b)
  }

  /** The beginning of a character that still lacks bytes. */
  predicate IsPartial(c: Text) {
    && 0 < |c|
    && IsLead(c[0])
    && |c| < SequenceLength(c[0])
    && (|c| >= 2 ==> SecondByteFits(c[0], c[1]))
    && (|c| >= 3 ==> Continuation(c[2]))
  }

  lemma PartialMeansProperPrefixOfChar(c: Text)
    ensures IsPartial(c) <==> c != [] && exists rest: Text :: rest != [] && IsChar(c + rest)
  {
    if IsPartial(c) {
      var second := if c[0] == 0xE0 then 0xA0 else if c[0] == 0xF0 then 0x90 else 0x80;
      var n := SequenceLength(c[0]);
      var rest: Text := if |c| == 1 then [second, 0x80, 0x80][..n - 1] else [0x80, 0x80][..n - |c|];
      if |c| == 1 {
        assert c + rest == [c[0], second, 0x80, 0x80][..n];
      } else if |c| == 2 {
        assert c + rest == [c[0], c[1], 0x80, 0x80][..n];
      } else {
        assert c + rest == [c[0], c[1], c[2], 0x80];
      }
      assert IsChar(c + rest);
    }
  }

  /** One step: the unfinished character after byte `b`, or None when `b` cannot come next. */
  function Next(tail: Text, b: Byte): (t: Option<Text>)
    ensures t.Some? ==> t.value == [] || t.value == tail + [b]
  {
    var c := tail + [b];
    if IsChar(c) then Some([]) else if IsPartial(c) then Some(c) else None
  }

  lemma NextState(tail: Text, b: Byte) returns (t: Text)
    requires Next(tail, b).Some?
    ensures Next(tail, b) == Some(t) && (t == [] || IsPartial(t))
  {
    t := Next(tail, b).value;
  }

  /** The unfinished character after reading `s` from state `tail`, or None at the first bad byte. */
  function Tail(tail: Text, s: Text): Option<Text>
    decreases |s|
  {
    if s == [] then Some(tail)
    else match Next(tail, s[0])
         case None => None
         case Some(t) => Tail(t, s[1..])
  }

  lemma {:induction false} TailOfConcat(tail: Text, a: Text, b: Text)
    ensures Tail(tail, a + b) ==
            match Tail(tail, a) case None => None case Some(t) => Tail(t, b)
    decreases |a|
  {
    if a == [] {
      assert a + b == b;
    } else {
      assert (a + b)[1..] == a[1..] + b;
      match Next(tail, a[0])
      case None =>
      case Some(t) => TailOfConcat(t, a[1..], b);
    }
  }

  /** Reading the rest of a character from one of its beginnings. */
  lemma {:induction false} ReadingAChar(tail: Text, more: Text)
    requires more != []
    requires tail == [] || IsPartial(tail)
    ensures IsChar(tail + more) ==> Tail(tail, more) == Some([])
    ensures IsPartial(tail + more) ==> Tail(tail, more) == Some(tail + more)
    decreases |more|
  {
    var c := tail + [more[0]];
    assert tail + more == c + more[1..];
    if more[1..] == [] {
      assert c == tail + more;
      assert Tail(c, more[1..]) == Some(c);
    } else if IsChar(tail + more) || IsPartial(tail + more) {
      assert IsPartial(c) && !IsChar(c);
      ReadingAChar(c, more[1..]);
    }
  }

  /** Reading a partial character from the start arrives at that partial character. */
  lemma TailOfPartial(tail: Text, s: Text)
    requires IsPartial(tail)
    ensures Tail([], tail + s) == Tail(tail, s)
  {
    ReadingAChar([], tail);
    assert [] + tail == tail;
    TailOfConcat([], tail, s);
  }

  /** Until a character is complete the state holds every byte of it, and completion comes on time. */
  lemma {:induction false} TailWithinOneChar(tail: Text, s: Text)
    requires IsPartial(tail)
    requires |tail| + |s| <= SequenceLength(tail[0])
    ensures Tail(tail, s).Some? ==>
              Tail(tail, s).value == if |tail| + |s| < SequenceLength(tail[0]) then tail + s else []
    decreases |s|
  {
    if s != [] {
      var next := Next(tail, s[0]);
      if next.Some? && next.value != [] {
        assert next.value + s[1..] == tail + s;
        TailWithinOneChar(next.value, s[1..]);
      }
    } else {
      assert tail + s == tail;
    }
  }

  /** `s` is well formed but for an unfinished character `t` at its end. */
  ghost predicate EndsUnfinished(s: Text, t: Text) {
    && (t == [] || IsPartial(t))
    && EndsWith(s, t)
    && WellFormed(s[..|s| - |t|])
  }

  lemma NextEndsUnfinished(s: Text, t: Text, b: Byte)
    requires EndsUnfinished(s, t) && Next(t, b).Some?
    ensures EndsUnfinished(s + [b], Next(t, b).value)
  {
    var head := s[..|s| - |t|];
    assert s + [b] == head + (t + [b]);
    if Next(t, b).value == [] {
      WellFormedOneChar(t + [b]);
      WellFormedConcat(head, t + [b]);
      assert (s + [b])[..|s| + 1] == s + [b];
    } else {
      assert (s + [b])[..|head|] == head;
    }
  }

  /** The state reached is the unfinished last character: everything before it is well formed. */
  lemma {:induction false} TailIsUnfinishedCharacter(s: Text)
    ensures Tail([], s).Some? ==> EndsUnfinished(s, Tail([], s).value)
    decreases |s|
  {
    if s == [] {
      assert Flatten([]) == s[..0];
    } else {
      var init, b := s[..|s| - 1], s[|s| - 1];
      assert s == init + [b];
      TailOfConcat([], init, [b]);
      TailIsUnfinishedCharacter(init);
      if Tail([], s).Some? {
        var t := Tail([], init).value;
        assert Tail(Next(t, b).value, [b][1..]) == Some(Next(t, b).value);
        NextEndsUnfinished(init, t, b);
      }
    }
  }

  lemma WellFormedOneChar(c: Text)
    requires IsChar(c)
    ensures WellFormed(c)
  {
    assert Flatten([c]) == c + Flatten([]) == c;
  }

  lemma {:induction false} FlattenConcat(a: seq<Text>, b: seq<Text>)
    ensures Flatten(a + b) == Flatten(a) + Flatten(b)
    decreases |a|
  {
    if a == [] {
      assert a + b == b;
    } else {
      assert (a + b)[1..] == a[1..] + b;
      FlattenConcat(a[1..], b);
    }
  }

  lemma WellFormedConcat(a: Text, b: Text)
    requires WellFormed(a) && WellFormed(b)
    ensures WellFormed(a + b)
  {
    var x: seq<Text> :| (forall c <- x :: IsChar(c)) && Flatten(x) == a;
    var y: seq<Text> :| (forall c <- y :: IsChar(c)) && Flatten(y) == b;
    FlattenConcat(x, y);
  }

  lemma {:induction false} CharsAreAccepted(chars: seq<Text>)
    requires forall c <- chars :: IsChar(c)
    ensures Tail([], Flatten(chars)) == Some([])
    decreases |chars|
  {
    if chars != [] {
      var c := chars[0];
      assert IsChar(chars[0]) && [] + c == c;
      ReadingAChar([], c);
      TailOfConcat([], c, Flatten(chars[1..]));
      CharsAreAccepted(chars[1..]);
    }
  }

  /** The automaton accepts exactly the well-formed texts... */
  lemma AcceptedIffWellFormed(s: Text)
    ensures Tail([], s) == Some([]) <==> WellFormed(s)
  {
    if WellFormed(s) {
      var chars: seq<Text> :| (forall c <- chars :: IsChar(c)) && Flatten(chars) == s;
      CharsAreAccepted(chars);
    }
    TailIsUnfinishedCharacter(s);
    assert s[..|s|] == s;
  }

  /** ...and it stays alive exactly on the texts that can still become well formed. */
  lemma AliveIffCompletable(s: Text)
    ensures Tail([], s).Some? <==> Completable(s)
  {
    if Tail([], s).Some? {
      TailIsUnfinishedCharacter(s);
      var t := Tail([], s).value;
      var head := s[..|s| - |t|];
      if t == [] {
        assert s + [] == s == head;
      } else {
        PartialMeansProperPrefixOfChar(t);
        var rest :| rest != [] && IsChar(t + rest);
        WellFormedOneChar(t + rest);
        WellFormedConcat(head, t + rest);
        assert s + rest == head + (t + rest);
      }
    }
    if Completable(s) {
      var rest: Text :| WellFormed(s + rest);
      AcceptedIffWellFormed(s + rest);
      TailOfConcat([], s, rest);
    }
  }

  /** A beginning of a completable text is completable. */
  lemma PrefixIsAlive(a: Text, b: Text)
    requires a <= b && Tail([], b).Some?
    ensures Tail([], a).Some?
  {
    assert b == a + b[|a|..];
    TailOfConcat([], a, b[|a|..]);
  }

  lemma {:induction false} AsciiIsAccepted(s: Text)
    requires forall i :: 0 <= i < |s| ==> s[i] < 128
    ensures Tail([], s) == Some([])
    decreases |s|
  {
    if s != [] {
      assert [] + [s[0]] == [s[0]];
      AsciiIsAccepted(s[1..]);
    }
  }

  /** Self-synchronisation: well-formed text can only be read at a character boundary. */
  lemma SelfSynchronising(tail: Text, s: Text, rest: Text)
    requires s != [] && Tail([], s) == Some([])
    requires tail == [] || IsPartial(tail)
    requires Tail(tail, s + rest).Some?
    ensures tail == []
    ensures Tail([], s + rest) == Tail([], rest)
  {
    assert (s + rest)[0] == s[0];
    assert Next(tail, s[0]).Some? && Next([], s[0]).Some?;
    assert [] + [s[0]] == [s[0]];
    TailOfConcat([], s, rest);
  }

  /** Replacing one well-formed text by another leaves the reading of what follows as it was. */
  lemma ReplacedTail(tail: Text, s: Text, left: Text, replacement: Text, rest: Text)
    requires s != [] && Tail([], s) == Some([]) && Tail([], replacement) == Some([])
    requires tail == [] || IsPartial(tail)
    requires Tail(tail, s + left).Some?
    ensures tail == [] && Tail([], left) == Tail(tail, s + left)
    ensures Tail([], replacement + rest) == Tail([], rest)
  {
    SelfSynchronising(tail, s, left);
    TailOfConcat([], replacement, rest);
  }

  lemma CopiedTail(tail: Text, b: Byte, left: Text, rest: Text) returns (t: Text)
    requires tail == [] || IsPartial(tail)
    requires Tail(tail, [b] + left).Some?
    ensures t == [] || IsPartial(t)
    ensures Tail(t, left) == Tail(tail, [b] + left)
    ensures Tail(t, rest) == Tail(tail, [b] + rest)
  {
    assert ([b] + left)[1..] == left && ([b] + rest)[1..] == rest;
    t := NextState(tail, b);
  }
}
